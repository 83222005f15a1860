/**
 * What the controller promises, proved about the functions of StripperSpec:
 * how the slot handles are resolved, which slots each operation may touch,
 * which requests it sends the host, and that it never creates or destroys a
 * stack.
 */
module StripperProperties {
  import opened Items
  import opened Host
  import opened StripperSpec

  // ---------------------------------------------------------------------------
  // What the host calls leave alone

  /**
   * `d` follows `c` by moves between slots and by logged requests only: the
   * containers keep their sizes, the player keeps the same stacks, and `c`'s
   * request log is a prefix of `d`'s.
   */
  predicate Quiet(c: ClientState, d: ClientState)
  {
    SameSizes(c, d) && Stacks(d) == Stacks(c) &&
    |c.requests| <= |d.requests| && d.requests[..|c.requests|] == c.requests
  }

  lemma QuietTrans(a: ClientState, b: ClientState, d: ClientState)
    requires Quiet(a, b) && Quiet(b, d)
    ensures Quiet(a, d)
  {
    assert d.requests[..|a.requests|] == d.requests[..|b.requests|][..|a.requests|];
  }

  /** Appending requests keeps the old log as a prefix. */
  lemma LogPrefix(log: seq<Request>, more: seq<Request>)
    ensures (log + more)[..|log|] == log
  {
  }

  /**
   * ClearSlot leaves an empty slot alone and otherwise asks the host once to
   * take the stack away. The stack can only land in an empty hotbar or backpack
   * slot, so no other occupied slot and no other character slot changes.
   */
  lemma ClearSlotProps(c: ClientState, r: SlotRef)
    ensures var (ok, d) := ClearSlotSpec(c, r);
      Quiet(c, d) && d.chat == c.chat &&
      d.requests == (if c.StackAt(r).Some? then c.requests + [AwayRequest(r)] else c.requests) &&
      (c.StackAt(r).None? ==> !ok && d == c) &&
      (ok ==> c.StackAt(r).Some? && d.StackAt(r).None?) &&
      (forall q :: q != r && (c.StackAt(q).Some? || q.container == Character) ==> d.StackAt(q) == c.StackAt(q))
  {
    if c.StackAt(r).Some? {
      TransferAwayKeeps(c, r);
      TransferAwayAt(c, r);
      LogPrefix(c.requests, [AwayRequest(r)]);
    }
  }

  /**
   * EquipIntoSlot does nothing for an empty source; otherwise it clears an
   * occupied destination and then asks the host to move the source's stack in.
   * On success the destination holds what the source held and the source is
   * empty; no other occupied slot and no other character slot changes.
   */
  lemma EquipIntoProps(c: ClientState, src: SlotRef, dst: SlotRef)
    requires src != dst
    ensures var (ok, d) := EquipIntoSpec(c, src, dst);
      Quiet(c, d) && d.chat == c.chat &&
      d.requests == (if c.StackAt(src).None? then c.requests
                     else c.requests + (if c.StackAt(dst).Some? then [AwayRequest(dst)] else []) + [ToRequest(src, dst)]) &&
      (ok ==> c.StackAt(src).Some? && d.StackAt(dst) == c.StackAt(src) && d.StackAt(src).None?) &&
      (forall q :: q != src && q != dst && (c.StackAt(q).Some? || q.container == Character) ==> d.StackAt(q) == c.StackAt(q))
  {
    if c.StackAt(src).Some? {
      var c1 := ClearSlotSpec(c, dst).1;
      ClearSlotProps(c, dst);
      assert c1.StackAt(src) == c.StackAt(src);
      var d := TransferTo(c1, src, dst).1;
      TransferToKeeps(c1, src, dst);
      TransferToAt(c1, src, dst);
      LogPrefix(c1.requests, [ToRequest(src, dst)]);
      QuietTrans(c, c1, d);
    }
  }

  /**
   * FindItemSlot returns the first accepted slot, the hotbar before the
   * backpack, and nothing exactly when no slot of either is accepted.
   */
  lemma FindItemFirst(c: ClientState, f: Filter)
    ensures var r := FindItem(c, f);
      (r.Some? ==>
        r.value.container != Character && c.Holds(r.value) &&
        Accepts(f, c.Slots(r.value.container)[r.value.index]) &&
        (forall k | 0 <= k < |c.hotbar| && (r.value.container == Backpack || k < r.value.index) :: !Accepts(f, c.hotbar[k])) &&
        (r.value.container == Backpack ==> forall k | 0 <= k < r.value.index :: !Accepts(f, c.backpack[k]))) &&
      (r.None? <==>
        (forall k | 0 <= k < |c.hotbar| :: !Accepts(f, c.hotbar[k])) &&
        (forall k | 0 <= k < |c.backpack| :: !Accepts(f, c.backpack[k])))
  {
  }

  /** A found slot holds a stack, since every filter accepts only occupied slots. */
  lemma FoundOccupied(c: ClientState, f: Filter)
    requires FindItem(c, f).Some?
    ensures c.StackAt(FindItem(c, f).value).Some?
  {
    FindItemFirst(c, f);
    var r := FindItem(c, f).value;
    AcceptsOnlyOccupied(f, c.Slots(r.container)[r.index]);
  }

  // ---------------------------------------------------------------------------
  // FindAndEquipArmour

  /** A stack FindAndEquipArmour may pick up: an armour piece other than the device, outside the character container. */
  predicate Pickable(s: Option<Stack>, q: SlotRef)
  {
    q.container != Character && !IsNightVisionDevice(s) &&
    (IsDressType(s, Armour(Head)) || IsDressType(s, Armour(Body)) || IsDressType(s, Armour(Legs)))
  }

  /** Every occupied slot whose stack FindAndEquipArmour may not pick up keeps its stack from `c` to `d`. */
  ghost predicate KeepsFixed(c: ClientState, d: ClientState)
  {
    forall q :: c.StackAt(q).Some? && !Pickable(c.StackAt(q), q) ==> d.StackAt(q) == c.StackAt(q)
  }

  lemma KeepsFixedTrans(a: ClientState, b: ClientState, d: ClientState)
    requires KeepsFixed(a, b) && KeepsFixed(b, d)
    ensures KeepsFixed(a, d)
  {
  }

  /** A request FindAndEquipArmour may send: move a stack from the hotbar or backpack into an armour slot. */
  predicate EquipRequest(m: ModState, q: Request)
  {
    q.ToRequest? && q.src.container != Character &&
    q.dst.container == Character && (Some(q.dst.index) == m.head || Some(q.dst.index) == m.body || Some(q.dst.index) == m.leg)
  }

  /** Every request logged after `c`'s log is one FindAndEquipArmour may send. */
  predicate EquipLog(m: ModState, c: ClientState, d: ClientState)
  {
    |c.requests| <= |d.requests| &&
    forall k | |c.requests| <= k < |d.requests| :: EquipRequest(m, d.requests[k])
  }

  lemma EquipLogTrans(m: ModState, a: ClientState, b: ClientState, d: ClientState)
    requires EquipLog(m, a, b) && EquipLog(m, b, d) && Quiet(b, d)
    ensures EquipLog(m, a, d)
  {
    forall k | |a.requests| <= k < |b.requests|
      ensures d.requests[k] == b.requests[k]
    {
      assert d.requests[..|b.requests|][k] == d.requests[k];
    }
  }

  /**
   * FindAndEquipArmourType either raises (no handle, yet a piece was found,
   * and nothing changed), or leaves the client's stacks conserved.
   */
  lemma FindAndEquipTypeQuiet(c: ClientState, p: ArmourPart, dst: Option<nat>)
    ensures var (o, d) := FindAndEquipTypeSpec(c, p, dst);
      Quiet(c, d) && d.chat == c.chat &&
      (o.NullReference? <==> dst.None? && FindItem(c, ArmourFor(p)).Some?) &&
      (o.NullReference? ==> d == c)
  {
    FindItemFirst(c, ArmourFor(p));
    match FindItem(c, ArmourFor(p))
    case None =>
    case Some(src) =>
      if dst.Some? {
        EquipIntoProps(c, src, CharRef(dst.value));
      }
  }

  /**
   * Equipping into an empty armour slot: exactly when a piece for the part is
   * found, the host is asked to move the first one into the slot, and that is
   * the only request. The only stack that moves is that piece, which is never
   * the night-vision device; a success puts it into the slot, and a failure
   * moves nothing.
   */
  lemma FindAndEquipTypeKeeps(c: ClientState, p: ArmourPart, dst: nat)
    requires c.StackAt(CharRef(dst)).None?
    ensures var (o, d) := FindAndEquipTypeSpec(c, p, Some(dst));
      o.Ok? &&
      (o.value ==> IsDressType(d.StackAt(CharRef(dst)), Armour(p)) && !IsNightVisionDevice(d.StackAt(CharRef(dst)))) &&
      (!o.value ==> SameSlots(c, d)) &&
      (forall q :: c.StackAt(q).Some? && !Pickable(c.StackAt(q), q) ==> d.StackAt(q) == c.StackAt(q)) &&
      (forall q: SlotRef :: q.container == Character && q.index != dst ==> d.StackAt(q) == c.StackAt(q)) &&
      (FindItem(c, ArmourFor(p)).Some? ==>
        FindItem(c, ArmourFor(p)).value.container != Character &&
        forall q :: q != FindItem(c, ArmourFor(p)).value && q != CharRef(dst) ==> d.StackAt(q) == c.StackAt(q)) &&
      d.requests == c.requests +
        (if FindItem(c, ArmourFor(p)).Some? then [ToRequest(FindItem(c, ArmourFor(p)).value, CharRef(dst))] else [])
  {
    FindItemFirst(c, ArmourFor(p));
    match FindItem(c, ArmourFor(p))
    case None =>
      assert c.requests + [] == c.requests;
    case Some(src) =>
      var slot := c.Slots(src.container)[src.index];
      assert c.StackAt(src) == slot.stack;
      assert Pickable(c.StackAt(src), src);
      EquipIntoProps(c, src, CharRef(dst));
      assert c.requests + [] + [ToRequest(src, CharRef(dst))] == c.requests + [ToRequest(src, CharRef(dst))];
      var (o, d) := FindAndEquipTypeSpec(c, p, Some(dst));
      assert (!o.value ==> SameSlots(c, d)) &&
        forall q :: q != src && q != CharRef(dst) ==> d.StackAt(q) == c.StackAt(q)
      by {
        assert (o.value, d) == TransferTo(c, src, CharRef(dst));
        TransferToAt(c, src, CharRef(dst));
      }
  }

  /**
   * Equipping into the character slot `dst`, occupied or not: when a piece for
   * the part is found, an occupied slot is asked to be cleared and then the
   * first piece found is asked to move in; with none found nothing is sent.
   */
  lemma FindAndEquipTypeRequests(c: ClientState, p: ArmourPart, dst: nat)
    ensures var f := FindItem(c, ArmourFor(p));
      FindAndEquipTypeSpec(c, p, Some(dst)).1.requests == c.requests +
        (if f.Some? then (if c.StackAt(CharRef(dst)).Some? then [AwayRequest(CharRef(dst))] else []) + [ToRequest(f.value, CharRef(dst))]
         else [])
  {
    match FindItem(c, ArmourFor(p))
    case None =>
      assert c.requests + [] == c.requests;
    case Some(src) =>
      assert src != CharRef(dst) by {
        FindItemFirst(c, ArmourFor(p));
      }
      assert c.StackAt(src).Some? by {
        FoundOccupied(c, ArmourFor(p));
      }
      EquipIntoProps(c, src, CharRef(dst));
  }

  /** Every slot holds what it held. */
  ghost predicate SameSlots(c: ClientState, d: ClientState)
  {
    forall q :: d.StackAt(q) == c.StackAt(q)
  }

  /** No two set armour handles name the same slot. */
  predicate DistinctArmour(m: ModState)
  {
    (m.head.Some? && m.body.Some? ==> m.head != m.body) &&
    (m.head.Some? && m.leg.Some? ==> m.head != m.leg) &&
    (m.body.Some? && m.leg.Some? ==> m.body != m.leg)
  }

  /** The request one block of FindAndEquipArmour sends: the move of the first piece found into a bare part's slot. */
  function EquipAsk(m: ModState, c: ClientState, p: ArmourPart): seq<Request>
  {
    if !Worn(m, c, p) && m.Handle(p).Some? && FindItem(c, ArmourFor(p)).Some?
    then [ToRequest(FindItem(c, ArmourFor(p)).value, CharRef(m.Handle(p).value))]
    else []
  }

  /**
   * One block of FindAndEquipArmour: a worn part is skipped; otherwise it
   * raises only without a handle, and the count grows by at most one. A bare
   * part with a handle and a piece found sends exactly the move of that piece
   * into the part's slot; every other case sends nothing.
   */
  lemma EquipPartProps(m: ModState, c: ClientState, p: ArmourPart, n: nat)
    ensures var (o, d) := EquipPart(m, c, p, n);
      Quiet(c, d) && d.chat == c.chat && EquipLog(m, c, d) &&
      d.requests == c.requests + EquipAsk(m, c, p) &&
      (Worn(m, c, p) ==> o == Ok(n) && d == c) &&
      (o.NullReference? ==> m.Handle(p).None? && d == c) &&
      (o.Ok? ==> o.value == n || o.value == n + 1)
  {
    assert c.requests + [] == c.requests;
    if !Worn(m, c, p) {
      var h := m.Handle(p);
      FindAndEquipTypeQuiet(c, p, h);
      if h.Some? {
        FindAndEquipTypeKeeps(c, p, h.value);
      }
    }
  }

  /**
   * The count grows exactly when a piece of the part went into its empty
   * slot; when it does not grow no slot changes; nothing that is worn or is
   * not an armour piece moves.
   */
  lemma EquipPartEquips(m: ModState, c: ClientState, p: ArmourPart, n: nat)
    ensures var (o, d) := EquipPart(m, c, p, n);
      (o == Ok(n + 1) ==>
        !Worn(m, c, p) && Worn(m, d, p) && IsDressType(d.StackAt(CharRef(m.Handle(p).value)), Armour(p))) &&
      (m.Handle(p).Some? ==> o.Ok? && (o.value == n + 1 <==> !Worn(m, c, p) && Worn(m, d, p))) &&
      (o == Ok(n) ==> SameSlots(c, d)) &&
      KeepsFixed(c, d)
  {
    if !Worn(m, c, p) {
      var h := m.Handle(p);
      FindAndEquipTypeQuiet(c, p, h);
      if h.Some? {
        FindAndEquipTypeKeeps(c, p, h.value);
      }
    }
  }

  /** One block of FindAndEquipArmour, seen from the state `c0` the pass began in: at most one more request, an equip move. */
  lemma EquipPartLog(m: ModState, c0: ClientState, c: ClientState, p: ArmourPart, n: nat)
    requires Quiet(c0, c) && EquipLog(m, c0, c)
    ensures var d := EquipPart(m, c, p, n).1;
      Quiet(c0, d) && EquipLog(m, c0, d) && |d.requests| <= |c.requests| + 1
  {
    var d := EquipPart(m, c, p, n).1;
    EquipPartProps(m, c, p, n);
    QuietTrans(c0, c, d);
    EquipLogTrans(m, c0, c, d);
  }

  /**
   * FindAndEquipArmour keeps every stack of the player, and every request it
   * sends, at most one per part, moves a stack into an armour slot. With
   * distinct handles, a pass that does not raise sends exactly one move for
   * every part that was bare, has a handle and has a piece to be found.
   */
  lemma FindAndEquipLog(m: ModState, c: ClientState)
    ensures var r := FindAndEquipSpec(m, c);
      Quiet(c, r.c) && EquipLog(m, c, r.c) && |r.c.requests| <= |c.requests| + 3 &&
      (DistinctArmour(m) && r.out.Ok? ==>
        r.c.requests == c.requests + EquipAsk(m, c, Head) + EquipAsk(m, c, Body) + EquipAsk(m, c, Legs))
  {
    if DistinctArmour(m) {
      FindAndEquipRequests(m, c);
    }
    var s1 := EquipPart(m, c, Head, 0);
    assert c.requests[..|c.requests|] == c.requests;
    EquipPartLog(m, c, c, Head, 0);
    if s1.0.Ok? {
      var s2 := EquipPart(m, s1.1, Body, s1.0.value);
      EquipPartLog(m, c, s1.1, Body, s1.0.value);
      if s2.0.Ok? {
        var s3 := EquipPart(m, s2.1, Legs, s2.0.value);
        EquipPartLog(m, c, s2.1, Legs, s2.0.value);
        if s3.0.Ok? && s3.0.value > 0 {
          ChatKeepsSlots(s3.1, EquippedNotice);
          QuietTrans(c, s3.1, s3.1.(chat := s3.1.chat + [EquippedNotice]));
        }
      }
    }
  }

  /**
   * FindAndEquipArmour equips at most one piece per part, so it counts at most
   * three; it records `Equipped` and shows the notice exactly when it counted
   * one, and otherwise leaves the controller and the chat alone.
   */
  lemma FindAndEquipProps(m: ModState, c: ClientState)
    ensures var r := FindAndEquipSpec(m, c);
      (r.out.Ok? ==> r.out.value <= 3) &&
      (r.out.Ok? && r.out.value > 0 ==> r.m == m.(state := Equipped) && r.c.chat == c.chat + [EquippedNotice]) &&
      (r.out == Ok(0) || r.out.NullReference? ==> r.m == m && r.c.chat == c.chat)
  {
    var s1 := EquipPart(m, c, Head, 0);
    EquipPartProps(m, c, Head, 0);
    if s1.0.Ok? {
      var s2 := EquipPart(m, s1.1, Body, s1.0.value);
      EquipPartProps(m, s1.1, Body, s1.0.value);
      if s2.0.Ok? {
        EquipPartProps(m, s2.1, Legs, s2.0.value);
      }
    }
  }

  /** Every request logged after `c`'s log moves a stack into a character slot that was empty in `c`. */
  predicate TargetsEmpty(c: ClientState, d: ClientState)
  {
    |c.requests| <= |d.requests| &&
    forall k | |c.requests| <= k < |d.requests| ::
      d.requests[k].ToRequest? && d.requests[k].dst.container == Character && c.StackAt(d.requests[k].dst).None?
  }

  lemma TargetsEmptyTrans(a: ClientState, b: ClientState, d: ClientState)
    requires TargetsEmpty(a, b) && TargetsEmpty(b, d) && KeepsFixed(a, b) && Quiet(b, d)
    ensures TargetsEmpty(a, d)
  {
    forall k | |a.requests| <= k < |b.requests|
      ensures d.requests[k] == b.requests[k]
    {
      assert d.requests[..|b.requests|][k] == d.requests[k];
    }
  }

  /** One block of FindAndEquipArmour asks only to fill the part's slot, and only when it is empty. */
  lemma EquipPartTargets(m: ModState, c0: ClientState, c: ClientState, p: ArmourPart, n: nat)
    requires TargetsEmpty(c0, c) && KeepsFixed(c0, c)
    ensures var d := EquipPart(m, c, p, n).1; TargetsEmpty(c0, d) && KeepsFixed(c0, d)
  {
    var d := EquipPart(m, c, p, n).1;
    EquipPartEquips(m, c, p, n);
    EquipPartProps(m, c, p, n);
    KeepsFixedTrans(c0, c, d);
    assert TargetsEmpty(c, d) by {
      if !Worn(m, c, p) && m.Handle(p).Some? {
        FindAndEquipTypeKeeps(c, p, m.Handle(p).value);
      }
    }
    TargetsEmptyTrans(c0, c, d);
  }

  /**
   * FindAndEquipArmour only fills slots: every request it sends moves a stack
   * into an armour slot that was empty when it started.
   */
  lemma FindAndEquipTargets(m: ModState, c: ClientState)
    ensures TargetsEmpty(c, FindAndEquipSpec(m, c).c)
  {
    var s1 := EquipPart(m, c, Head, 0);
    EquipPartTargets(m, c, c, Head, 0);
    if s1.0.Ok? {
      var s2 := EquipPart(m, s1.1, Body, s1.0.value);
      EquipPartTargets(m, c, s1.1, Body, s1.0.value);
      if s2.0.Ok? {
        EquipPartTargets(m, c, s2.1, Legs, s2.0.value);
      }
    }
  }

  /**
   * FindAndEquipArmour never moves a stack that is worn or that is not an
   * armour piece; in particular the night-vision device stays where it is.
   */
  lemma FindAndEquipKeeps(m: ModState, c: ClientState)
    ensures KeepsFixed(c, FindAndEquipSpec(m, c).c)
  {
    var s1 := EquipPart(m, c, Head, 0);
    EquipPartEquips(m, c, Head, 0);
    if s1.0.Ok? {
      var s2 := EquipPart(m, s1.1, Body, s1.0.value);
      EquipPartEquips(m, s1.1, Body, s1.0.value);
      KeepsFixedTrans(c, s1.1, s2.1);
      if s2.0.Ok? {
        var s3 := EquipPart(m, s2.1, Legs, s2.0.value);
        EquipPartEquips(m, s2.1, Legs, s2.0.value);
        KeepsFixedTrans(c, s2.1, s3.1);
        if s3.0.Ok? && s3.0.value > 0 {
          ChatKeepsSlots(s3.1, EquippedNotice);
          KeepsFixedTrans(c, s3.1, s3.1.(chat := s3.1.chat + [EquippedNotice]));
        }
      }
    }
  }

  /** With the armour handles resolved, FindAndEquipArmour never raises. */
  lemma FindAndEquipResolved(m: ModState, c: ClientState)
    requires m.head.Some? && m.body.Some? && m.leg.Some?
    ensures FindAndEquipSpec(m, c).out.Ok?
  {
    var s1 := EquipPart(m, c, Head, 0);
    EquipPartProps(m, c, Head, 0);
    var s2 := EquipPart(m, s1.1, Body, s1.0.value);
    EquipPartProps(m, s1.1, Body, s1.0.value);
    EquipPartProps(m, s2.1, Legs, s2.0.value);
  }

  /** The part was bare in `c` and is worn in `d`. */
  predicate Filled(m: ModState, c: ClientState, d: ClientState, p: ArmourPart)
  {
    !Worn(m, c, p) && Worn(m, d, p)
  }

  /** FindAndEquipArmour never takes a worn piece off. */
  lemma WornStays(m: ModState, c: ClientState, d: ClientState, p: ArmourPart)
    requires KeepsFixed(c, d)
    ensures Worn(m, c, p) ==> Worn(m, d, p)
  {
    if Worn(m, c, p) {
      var q := CharRef(m.Handle(p).value);
      assert !Pickable(c.StackAt(q), q);
    }
  }

  /** Some armour part went from bare in `c` to worn in `d`. */
  predicate AnyFilled(m: ModState, c: ClientState, d: ClientState)
  {
    Filled(m, c, d, Head) || Filled(m, c, d, Body) || Filled(m, c, d, Legs)
  }

  /**
   * One block of FindAndEquipArmour, counted from the state `c0` the pass
   * began in: the count is positive exactly when some part has been filled
   * since, and while it is zero no slot has changed.
   */
  lemma EquipPartFills(m: ModState, c0: ClientState, c: ClientState, p: ArmourPart, n: nat)
    requires m.Handle(p).Some? && KeepsFixed(c0, c)
    requires (n > 0 <==> AnyFilled(m, c0, c)) && (n == 0 ==> SameSlots(c0, c))
    ensures var (o, d) := EquipPart(m, c, p, n);
      o.Ok? && KeepsFixed(c0, d) &&
      (o.value > 0 <==> AnyFilled(m, c0, d)) && (o.value == 0 ==> SameSlots(c0, d))
  {
    var (o, d) := EquipPart(m, c, p, n);
    EquipPartEquips(m, c, p, n);
    KeepsFixedTrans(c0, c, d);
    WornStays(m, c0, c, p);
    WornStays(m, c, d, Head);
    WornStays(m, c, d, Body);
    WornStays(m, c, d, Legs);
    WornStays(m, c0, d, Head);
    WornStays(m, c0, d, Body);
    WornStays(m, c0, d, Legs);
  }

  /**
   * With the armour handles set, FindAndEquipArmour counts a piece exactly
   * when some part went from bare to worn, so it records `Equipped` whenever
   * it filled a slot and leaves the controller alone otherwise.
   */
  lemma FindAndEquipFills(m: ModState, c: ClientState)
    requires m.head.Some? && m.body.Some? && m.leg.Some?
    ensures var r := FindAndEquipSpec(m, c);
      r.out.Ok? && (r.out.value > 0 <==> AnyFilled(m, c, r.c)) &&
      r.m == if AnyFilled(m, c, r.c) then m.(state := Equipped) else m
  {
    var s1 := EquipPart(m, c, Head, 0);
    EquipPartFills(m, c, c, Head, 0);
    var s2 := EquipPart(m, s1.1, Body, s1.0.value);
    EquipPartFills(m, c, s1.1, Body, s1.0.value);
    var s3 := EquipPart(m, s2.1, Legs, s2.0.value);
    EquipPartFills(m, c, s2.1, Legs, s2.0.value);
    ChatKeepsSlots(s3.1, EquippedNotice);
    FindAndEquipProps(m, c);
  }

  /** A search depends only on which hotbar and backpack slots the filter accepts. */
  lemma FindItemSame(c: ClientState, d: ClientState, f: Filter)
    requires |d.hotbar| == |c.hotbar| && |d.backpack| == |c.backpack|
    requires forall k | 0 <= k < |c.hotbar| :: Accepts(f, d.hotbar[k]) == Accepts(f, c.hotbar[k])
    requires forall k | 0 <= k < |c.backpack| :: Accepts(f, d.backpack[k]) == Accepts(f, c.backpack[k])
    ensures FindItem(d, f) == FindItem(c, f)
  {
    FindItemFirst(c, f);
    FindItemFirst(d, f);
  }

  /**
   * Moving a piece of part `p` into a character slot leaves every search for
   * another part's pieces finding what it found before.
   */
  lemma MoveKeepsSearch(c: ClientState, src: SlotRef, dst: SlotRef, p: ArmourPart, p': ArmourPart)
    requires p' != p && dst.container == Character && IsDressType(c.StackAt(src), Armour(p))
    ensures FindItem(TransferTo(c, src, dst).1, ArmourFor(p')) == FindItem(c, ArmourFor(p'))
  {
    var d := TransferTo(c, src, dst).1;
    assert SameSizes(c, d) by {
      TransferToKeeps(c, src, dst);
    }
    forall k | 0 <= k < |c.hotbar|
      ensures Accepts(ArmourFor(p'), d.hotbar[k]) == Accepts(ArmourFor(p'), c.hotbar[k])
    {
      TransferToAt(c, src, dst);
      assert d.StackAt(HotbarRef(k)) == d.hotbar[k].stack && c.StackAt(HotbarRef(k)) == c.hotbar[k].stack;
    }
    forall k | 0 <= k < |c.backpack|
      ensures Accepts(ArmourFor(p'), d.backpack[k]) == Accepts(ArmourFor(p'), c.backpack[k])
    {
      TransferToAt(c, src, dst);
      var q := SlotRef(Backpack, k);
      assert d.StackAt(q) == d.backpack[k].stack && c.StackAt(q) == c.backpack[k].stack;
    }
    FindItemSame(c, d, ArmourFor(p'));
  }

  /**
   * With distinct handles, the block for part `p` leaves another part `p'`
   * alone: whether it is worn, and which piece a search for it finds first.
   */
  lemma EquipPartUntouched(m: ModState, c: ClientState, p: ArmourPart, n: nat, p': ArmourPart)
    requires DistinctArmour(m) && p' != p
    ensures var d := EquipPart(m, c, p, n).1;
      Worn(m, d, p') == Worn(m, c, p') && FindItem(d, ArmourFor(p')) == FindItem(c, ArmourFor(p'))
  {
    var d := EquipPart(m, c, p, n).1;
    if !Worn(m, c, p) && m.Handle(p).Some? && FindItem(c, ArmourFor(p)).Some? {
      var dst := CharRef(m.Handle(p).value);
      var src := FindItem(c, ArmourFor(p)).value;
      FindItemFirst(c, ArmourFor(p));
      assert c.StackAt(src) == c.Slots(src.container)[src.index].stack;
      assert d == TransferTo(c, src, dst).1;
      MoveKeepsSearch(c, src, dst, p, p');
      if m.Handle(p').Some? {
        TransferToAt(c, src, dst);
        assert d.StackAt(CharRef(m.Handle(p').value)) == c.StackAt(CharRef(m.Handle(p').value));
      }
    } else {
      assert d == c;
    }
  }

  /** One block's request, seen from the state `c0` the pass began in, when nothing has touched the part since. */
  lemma EquipPartAsks(m: ModState, c0: ClientState, c: ClientState, p: ArmourPart, n: nat)
    requires Worn(m, c, p) == Worn(m, c0, p) && FindItem(c, ArmourFor(p)) == FindItem(c0, ArmourFor(p))
    ensures EquipPart(m, c, p, n).1.requests == c.requests + EquipAsk(m, c0, p)
  {
    EquipPartProps(m, c, p, n);
  }

  /**
   * With distinct handles, a pass that does not raise sends exactly the moves
   * of the blocks, head, body and legs in that order: one for every part that
   * was bare, has a handle and has a piece to be found when the pass began.
   */
  lemma FindAndEquipRequests(m: ModState, c: ClientState)
    requires DistinctArmour(m)
    ensures var r := FindAndEquipSpec(m, c);
      r.out.Ok? ==> r.c.requests == c.requests + EquipAsk(m, c, Head) + EquipAsk(m, c, Body) + EquipAsk(m, c, Legs)
  {
    var s1 := EquipPart(m, c, Head, 0);
    EquipPartAsks(m, c, c, Head, 0);
    if s1.0.Ok? {
      var s2 := EquipPart(m, s1.1, Body, s1.0.value);
      EquipPartUntouched(m, c, Head, 0, Body);
      EquipPartAsks(m, c, s1.1, Body, s1.0.value);
      if s2.0.Ok? {
        var s3 := EquipPart(m, s2.1, Legs, s2.0.value);
        EquipPartUntouched(m, c, Head, 0, Legs);
        EquipPartUntouched(m, s1.1, Body, s1.0.value, Legs);
        EquipPartAsks(m, c, s2.1, Legs, s2.0.value);
        ChatKeepsSlots(s3.1, EquippedNotice);
      }
    }
  }

  // ---------------------------------------------------------------------------
  // StripArmour

  /** A character slot some armour handle names. */
  predicate ArmourSlot(m: ModState, q: SlotRef)
  {
    q.container == Character && (Some(q.index) == m.head || Some(q.index) == m.body || Some(q.index) == m.leg)
  }

  /** Every request logged after `c`'s log takes the stack of an armour slot away. */
  predicate StripLog(m: ModState, c: ClientState, d: ClientState)
  {
    |c.requests| <= |d.requests| &&
    forall k | |c.requests| <= k < |d.requests| :: d.requests[k].AwayRequest? && ArmourSlot(m, d.requests[k].src)
  }

  /**
   * Clearing the slot of a set armour handle, as StripArmour does for each
   * part: exactly one away request when the handle is set and its slot holds a
   * stack, none otherwise; no other character slot changes.
   */
  lemma StripStep(m: ModState, c: ClientState, h: Option<nat>)
    requires h.Some? ==> ArmourSlot(m, CharRef(h.value))
    ensures var d := if h.Some? then ClearSlotSpec(c, CharRef(h.value)).1 else c;
      Quiet(c, d) && d.chat == c.chat && StripLog(m, c, d) &&
      d.requests == c.requests + (if h.Some? && c.StackAt(CharRef(h.value)).Some? then [AwayRequest(CharRef(h.value))] else []) &&
      (h.Some? ==> forall q: SlotRef :: q.container == Character && q != CharRef(h.value) ==> d.StackAt(q) == c.StackAt(q)) &&
      (forall q :: !ArmourSlot(m, q) && (c.StackAt(q).Some? || q.container == Character) ==> d.StackAt(q) == c.StackAt(q))
  {
    assert c.requests + [] == c.requests;
    if h.Some? {
      ClearSlotProps(c, CharRef(h.value));
    }
  }

  lemma StripLogTrans(m: ModState, a: ClientState, b: ClientState, d: ClientState)
    requires StripLog(m, a, b) && StripLog(m, b, d) && Quiet(b, d)
    ensures StripLog(m, a, d)
  {
    forall k | |a.requests| <= k < |b.requests|
      ensures d.requests[k] == b.requests[k]
    {
      assert d.requests[..|b.requests|][k] == d.requests[k];
    }
  }

  /**
   * StripArmour always records `Stripped`, keeps the handles and shows the
   * notice; it sends at most three requests, each taking an armour slot's
   * stack away, and asks for the slot of every part worn at the start, once
   * each when the handles are distinct; it changes no other character slot
   * and no occupied hotbar or backpack slot; and the player keeps every stack.
   */
  lemma StripProps(m: ModState, c: ClientState)
    ensures var r := StripSpec(m, c);
      r.m == m.(state := Stripped) && r.c.chat == c.chat + [StrippedNotice] &&
      Quiet(c, r.c) && StripLog(m, c, r.c) && |r.c.requests| <= |c.requests| + 3 &&
      (forall q :: !ArmourSlot(m, q) && (c.StackAt(q).Some? || q.container == Character) ==> r.c.StackAt(q) == c.StackAt(q)) &&
      (forall p: ArmourPart :: Worn(m, c, p) ==> Asked(c, r.c, CharRef(m.Handle(p).value))) &&
      (DistinctArmour(m) ==>
        r.c.requests == c.requests + AwayIfWorn(m, c, Head) + AwayIfWorn(m, c, Body) + AwayIfWorn(m, c, Legs))
  {
    StripAsksWorn(m, c);
    var c1 := if m.head.Some? then ClearSlotSpec(c, CharRef(m.head.value)).1 else c;
    var c2 := if m.body.Some? then ClearSlotSpec(c1, CharRef(m.body.value)).1 else c1;
    var c3 := if m.leg.Some? then ClearSlotSpec(c2, CharRef(m.leg.value)).1 else c2;
    StripStep(m, c, m.head);
    StripStep(m, c1, m.body);
    StripStep(m, c2, m.leg);
    QuietTrans(c, c1, c2);
    QuietTrans(c, c2, c3);
    StripLogTrans(m, c, c1, c2);
    StripLogTrans(m, c, c2, c3);
    ChatKeepsSlots(c3, StrippedNotice);
    QuietTrans(c, c3, c3.(chat := c3.chat + [StrippedNotice]));
  }

  /** The host has been asked, since `c0`, to take the stack of `r` away. */
  predicate Asked(c0: ClientState, d: ClientState, r: SlotRef)
  {
    |c0.requests| <= |d.requests| && AwayRequest(r) in d.requests[|c0.requests|..]
  }

  /**
   * One clear of StripArmour, seen from the state `c0` the strip began in: a
   * character slot that still holds what it held in `c0` is asked to be
   * cleared when its handle comes up, and a slot once asked stays asked.
   */
  lemma StripStepAsks(m: ModState, c0: ClientState, c: ClientState, h: Option<nat>, r: SlotRef)
    requires h.Some? ==> ArmourSlot(m, CharRef(h.value))
    requires r.container == Character && |c0.requests| <= |c.requests|
    requires Asked(c0, c, r) || c.StackAt(r) == c0.StackAt(r)
    ensures var d := if h.Some? then ClearSlotSpec(c, CharRef(h.value)).1 else c;
      |c0.requests| <= |d.requests| &&
      (Asked(c0, d, r) || d.StackAt(r) == c0.StackAt(r)) &&
      (Asked(c0, c, r) ==> Asked(c0, d, r)) &&
      (h.Some? && CharRef(h.value) == r && c0.StackAt(r).Some? ==> Asked(c0, d, r))
  {
    var d := if h.Some? then ClearSlotSpec(c, CharRef(h.value)).1 else c;
    StripStep(m, c, h);
    var extra := if h.Some? && c.StackAt(CharRef(h.value)).Some? then [AwayRequest(CharRef(h.value))] else [];
    assert d.requests[|c0.requests|..] == c.requests[|c0.requests|..] + extra;
  }

  /** StripArmour asks the host to clear the slot of every armour part worn when it starts. */
  lemma StripAsks(m: ModState, c: ClientState, p: ArmourPart)
    requires Worn(m, c, p)
    ensures Asked(c, StripSpec(m, c).c, CharRef(m.Handle(p).value))
  {
    var r := CharRef(m.Handle(p).value);
    var c1 := if m.head.Some? then ClearSlotSpec(c, CharRef(m.head.value)).1 else c;
    var c2 := if m.body.Some? then ClearSlotSpec(c1, CharRef(m.body.value)).1 else c1;
    var c3 := if m.leg.Some? then ClearSlotSpec(c2, CharRef(m.leg.value)).1 else c2;
    StripStepAsks(m, c, c, m.head, r);
    StripStepAsks(m, c, c1, m.body, r);
    StripStepAsks(m, c, c2, m.leg, r);
    ChatKeepsSlots(c3, StrippedNotice);
  }

  /** StripAsks for all three parts, and StripRequests when the handles are distinct. */
  lemma StripAsksWorn(m: ModState, c: ClientState)
    ensures var d := StripSpec(m, c).c;
      (forall p: ArmourPart :: Worn(m, c, p) ==> Asked(c, d, CharRef(m.Handle(p).value))) &&
      (DistinctArmour(m) ==>
        d.requests == c.requests + AwayIfWorn(m, c, Head) + AwayIfWorn(m, c, Body) + AwayIfWorn(m, c, Legs))
  {
    forall p: ArmourPart | Worn(m, c, p)
      ensures Asked(c, StripSpec(m, c).c, CharRef(m.Handle(p).value))
    {
      StripAsks(m, c, p);
    }
    if DistinctArmour(m) {
      StripRequests(m, c);
    }
  }

  /** The away request StripArmour sends for a part: one exactly when the part is worn. */
  function AwayIfWorn(m: ModState, c: ClientState, p: ArmourPart): seq<Request>
  {
    if Worn(m, c, p) then [AwayRequest(CharRef(m.Handle(p).value))] else []
  }

  /**
   * The clear StripArmour makes for part `p`, seen from the state `c0` the
   * strip began in: when the part's slot still holds what it held in `c0`, the
   * clear sends the away request exactly when the part was worn in `c0`, and
   * it leaves the slots of the other parts alone.
   */
  lemma StripPartRequests(m: ModState, c0: ClientState, c: ClientState, p: ArmourPart)
    requires DistinctArmour(m)
    requires m.Handle(p).Some? ==> c.StackAt(CharRef(m.Handle(p).value)) == c0.StackAt(CharRef(m.Handle(p).value))
    ensures var d := if m.Handle(p).Some? then ClearSlotSpec(c, CharRef(m.Handle(p).value)).1 else c;
      d.requests == c.requests + AwayIfWorn(m, c0, p) &&
      forall p': ArmourPart :: p' != p && m.Handle(p').Some? ==>
        d.StackAt(CharRef(m.Handle(p').value)) == c.StackAt(CharRef(m.Handle(p').value))
  {
    assert c.requests + [] == c.requests;
    if m.Handle(p).Some? {
      ClearSlotProps(c, CharRef(m.Handle(p).value));
    }
  }

  /**
   * With distinct handles, StripArmour sends exactly one away request per worn
   * part, head, body and legs in that order, and nothing else.
   */
  lemma StripRequests(m: ModState, c: ClientState)
    requires DistinctArmour(m)
    ensures StripSpec(m, c).c.requests ==
      c.requests + AwayIfWorn(m, c, Head) + AwayIfWorn(m, c, Body) + AwayIfWorn(m, c, Legs)
  {
    var c1 := if m.head.Some? then ClearSlotSpec(c, CharRef(m.head.value)).1 else c;
    var c2 := if m.body.Some? then ClearSlotSpec(c1, CharRef(m.body.value)).1 else c1;
    var c3 := if m.leg.Some? then ClearSlotSpec(c2, CharRef(m.leg.value)).1 else c2;
    StripPartRequests(m, c, c, Head);
    StripPartRequests(m, c, c1, Body);
    StripPartRequests(m, c, c2, Legs);
    ChatKeepsSlots(c3, StrippedNotice);
  }

  /** Showing a chat line touches no slot and no log. */
  lemma ChatKeepsSlots(c: ClientState, n: Notice)
    ensures var d := c.(chat := c.chat + [n]);
      Quiet(c, d) && d.requests == c.requests && forall q :: d.StackAt(q) == c.StackAt(q)
  {
    var d := c.(chat := c.chat + [n]);
    assert Stacks(d) == Stacks(c);
  }

  // ---------------------------------------------------------------------------
  // InitSlots

  /**
   * A scan leaves the earlier handle when no slot passes the test, and
   * otherwise the last passing slot: one that passes with no passing slot
   * after it.
   */
  lemma {:induction false} LastPassingIsLast(slots: seq<Slot>, t: SlotTest, prev: Option<nat>)
    ensures var h := LastPassing(slots, t, prev);
      ((forall k | 0 <= k < |slots| :: !Passes(t, slots[k])) ==> h == prev) &&
      (forall k | 0 <= k < |slots| && Passes(t, slots[k]) ::
        h.Some? && k <= h.value < |slots| && Passes(t, slots[h.value]))
    decreases |slots|
  {
    if slots != [] {
      var n := |slots| - 1;
      LastPassingIsLast(slots[..n], t, prev);
      assert forall k | 0 <= k < n :: slots[..n][k] == slots[k];
    }
  }

  /**
   * InitSlots always hooks the damage listener, never touches the client or
   * the toggle state, keeps a full set of handles without rescanning, and
   * succeeds exactly when all four handles are set afterwards. A handle that
   * was set stays set.
   */
  lemma InitSlotsProps(m: ModState, c: ClientState)
    ensures var r := InitSlotsSpec(m, c);
      r.c == c && r.m.hooked && r.m.state == m.state &&
      (r.out <==> r.m.Resolved()) &&
      (m.Resolved() ==> r.m == m.(hooked := true)) &&
      (m.head.Some? ==> r.m.head.Some?) && (m.body.Some? ==> r.m.body.Some?) &&
      (m.leg.Some? ==> r.m.leg.Some?) && (m.hand.Some? ==> r.m.hand.Some?)
  {
    LastPassingIsLast(c.character, RoleTest(Head), m.head);
    LastPassingIsLast(c.character, RoleTest(Body), m.body);
    LastPassingIsLast(c.character, RoleTest(Legs), m.leg);
    LastPassingIsLast(c.hotbar, OffhandTest, m.hand);
  }

  /**
   * When some handle is unset, InitSlots rescans: each armour handle becomes
   * the last character slot whose stack is of that part or whose icon names
   * it, and stays as it was when there is none.
   */
  lemma InitSlotsArmour(m: ModState, c: ClientState, p: ArmourPart)
    requires !m.Resolved()
    ensures var h := InitSlotsSpec(m, c).m.Handle(p);
      ((forall k | 0 <= k < |c.character| :: !Passes(RoleTest(p), c.character[k])) ==> h == m.Handle(p)) &&
      (forall k | 0 <= k < |c.character| && Passes(RoleTest(p), c.character[k]) ::
        h.Some? && k <= h.value < |c.character| && Passes(RoleTest(p), c.character[h.value]))
  {
    LastPassingIsLast(c.character, RoleTest(p), m.Handle(p));
  }

  /** Likewise the off-hand handle becomes the last off-hand slot of the hotbar. */
  lemma InitSlotsHand(m: ModState, c: ClientState)
    requires !m.Resolved()
    ensures var h := InitSlotsSpec(m, c).m.hand;
      ((forall k | 0 <= k < |c.hotbar| :: !c.hotbar[k].offhand) ==> h == m.hand) &&
      (forall k | 0 <= k < |c.hotbar| && c.hotbar[k].offhand ::
        h.Some? && k <= h.value < |c.hotbar| && c.hotbar[h.value].offhand)
  {
    LastPassingIsLast(c.hotbar, OffhandTest, m.hand);
  }

  // ---------------------------------------------------------------------------
  // SwapOut

  /** The swap decision: strip a full set, or a partial set while `Equipped`; equip otherwise. */
  predicate StripsOnSwap(m: ModState, c: ClientState)
  {
    var n := CountPieces(m, c);
    n == 3 || (n > 0 && m.state == Equipped)
  }

  /**
   * SwapOut fails, changing nothing but the hook flag and the handles, exactly
   * when the slots do not resolve; otherwise it succeeds, and its five-way
   * choice comes down to one: strip a full set or a partial set while
   * `Equipped`, equip in every other case (none worn, `Stripped`, `Unknown`).
   */
  lemma SwapOutDecides(m: ModState, c: ClientState)
    ensures var i := InitSlotsSpec(m, c); var r := SwapOutSpec(m, c);
      r.out == i.out &&
      (!i.out ==> r.c == c && r.m == i.m) &&
      (i.out ==> r == if StripsOnSwap(i.m, i.c) then StripRun(i.m, i.c) else EquipRun(i.m, i.c))
  {
    InitSlotsProps(m, c);
  }

  /**
   * A swap that strips leaves `Stripped`, keeps the handles and the player's
   * stacks, and sends only requests that take an armour slot's stack away.
   */
  lemma SwapOutStrips(m: ModState, c: ClientState)
    requires InitSlotsSpec(m, c).out && StripsOnSwap(InitSlotsSpec(m, c).m, InitSlotsSpec(m, c).c)
    ensures var i := InitSlotsSpec(m, c); var r := SwapOutSpec(m, c);
      r.out && r.m == i.m.(state := Stripped) && Quiet(c, r.c) && StripLog(i.m, c, r.c)
  {
    var i := InitSlotsSpec(m, c);
    InitSlotsProps(m, c);
    SwapOutDecides(m, c);
    assert SwapOutSpec(m, c) == StripRun(i.m, c);
    StripProps(i.m, c);
  }

  /**
   * A swap that equips never raises; it leaves `Equipped` when it equipped
   * anything and the state unchanged otherwise, keeps the handles and the
   * player's stacks, and sends only requests that move a stack into an
   * armour slot.
   */
  lemma SwapOutEquips(m: ModState, c: ClientState)
    requires InitSlotsSpec(m, c).out && !StripsOnSwap(InitSlotsSpec(m, c).m, InitSlotsSpec(m, c).c)
    ensures var i := InitSlotsSpec(m, c); var r := SwapOutSpec(m, c); var e := FindAndEquipSpec(i.m, c);
      r.out && e.out.Ok? &&
      r.m == (if e.out.value > 0 then i.m.(state := Equipped) else i.m) &&
      Quiet(c, r.c) && EquipLog(i.m, c, r.c)
  {
    var i := InitSlotsSpec(m, c);
    InitSlotsProps(m, c);
    SwapOutDecides(m, c);
    assert SwapOutSpec(m, c) == EquipRun(i.m, c);
    FindAndEquipResolved(i.m, c);
    FindAndEquipProps(i.m, c);
    FindAndEquipLog(i.m, c);
  }

  // ---------------------------------------------------------------------------
  // ToggleNightVision

  /**
   * The light loop never changes the controller, keeps every stack, and
   * shows the no-light notice exactly when no class of the list is found.
   */
  lemma {:induction false} ToggleLightsProps(m: ModState, c: ClientState, classes: seq<string>)
    requires m.hand.Some?
    ensures var r := ToggleLights(m, c, classes);
      r.m == m && r.out && Quiet(c, r.c) &&
      r.c.chat == if forall i | 0 <= i < |classes| :: FindHandlightSpec(m, c, classes[i], true).None?
                  then c.chat + [NoLightNotice] else c.chat
    decreases |classes|
  {
    var hand := HotbarRef(m.hand.value);
    if classes == [] {
      ChatKeepsSlots(c, NoLightNotice);
    } else {
      match FindHandlightSpec(m, c, classes[0], true)
      case Some(l) =>
        if hand != l {
          EquipIntoProps(c, l, hand);
        } else {
          ClearSlotProps(c, hand);
        }
      case None =>
        ToggleLightsProps(m, c, classes[1..]);
        assert forall i | 0 < i < |classes| :: classes[1..][i - 1] == classes[i];
    }
  }

  /** A slot the toggle would act on: it holds the device, a lantern or a torch. */
  predicate Toggleable(slot: Slot)
  {
    IsNightVisionDevice(slot.stack) || HasBlockClass(slot.stack, LightClasses[0]) || HasBlockClass(slot.stack, LightClasses[1])
  }

  /** Nothing to toggle: no device in the head slot, and no device, lantern or torch in the hotbar or the backpack. */
  predicate NothingToToggle(m: ModState, c: ClientState)
    requires m.head.Some?
  {
    !IsNightVisionDevice(c.StackAt(CharRef(m.head.value))) &&
    (forall k | 0 <= k < |c.hotbar| :: !Toggleable(c.hotbar[k])) &&
    (forall k | 0 <= k < |c.backpack| :: !Toggleable(c.backpack[k]))
  }

  /** The off-hand slot, which lies in the hotbar, holds a block of the class. */
  predicate HandHolds(m: ModState, c: ClientState, cls: string)
    requires m.hand.Some?
  {
    HasBlockClass(c.StackAt(HotbarRef(m.hand.value)), cls)
  }

  /** No hotbar or backpack slot holds a block of the class. */
  lemma NoLightFound(m: ModState, c: ClientState, cls: string)
    requires m.hand.Some?
    ensures FindHandlightSpec(m, c, cls, true).None? <==>
      (forall k | 0 <= k < |c.hotbar| :: !HasBlockClass(c.hotbar[k].stack, cls)) &&
      (forall k | 0 <= k < |c.backpack| :: !HasBlockClass(c.backpack[k].stack, cls))
  {
    FindItemFirst(c, Light(cls));
    var h := m.hand.value;
    if h < |c.hotbar| {
      assert c.StackAt(HotbarRef(h)) == c.hotbar[h].stack;
    }
  }

  /**
   * Once the slots are resolved, the toggle never changes the controller, keeps
   * every stack, and shows the no-light notice exactly when there is nothing to
   * toggle.
   */
  lemma ToggleResolvedProps(m: ModState, c: ClientState)
    requires m.Resolved()
    ensures var r := ToggleResolved(m, c);
      r.m == m && r.out && Quiet(c, r.c) &&
      r.c.chat == (if NothingToToggle(m, c) then c.chat + [NoLightNotice] else c.chat) &&
      (NothingToToggle(m, c) ==> r.c == c.(chat := c.chat + [NoLightNotice]))
  {
    var head := CharRef(m.head.value);
    NothingToToggleIff(m, c);
    match FindNightVisionSpec(m, c, true)
    case Some(nv) =>
      if head != nv {
        EquipIntoProps(c, nv, head);
      } else {
        var c1 := ClearSlotSpec(c, head).1;
        ClearSlotProps(c, head);
        if m.state == Equipped {
          FindAndEquipTypeQuiet(c1, Head, m.head);
          QuietTrans(c, c1, FindAndEquipTypeSpec(c1, Head, m.head).1);
        }
      }
    case None =>
      ToggleLightsProps(m, c, LightClasses);
      assert (forall i | 0 <= i < |LightClasses| :: FindHandlightSpec(m, c, LightClasses[i], true).None?) <==>
        FindHandlightSpec(m, c, LightClasses[0], true).None? && FindHandlightSpec(m, c, LightClasses[1], true).None?;
      if NothingToToggle(m, c) {
        ToggleLightsNone(m, c, LightClasses);
      }
  }

  /** When no class of the list is found, the light loop only shows the no-light notice. */
  lemma {:induction false} ToggleLightsNone(m: ModState, c: ClientState, classes: seq<string>)
    requires m.hand.Some?
    requires forall i | 0 <= i < |classes| :: FindHandlightSpec(m, c, classes[i], true).None?
    ensures ToggleLights(m, c, classes) == Run(m, c.(chat := c.chat + [NoLightNotice]), true)
    decreases |classes|
  {
    if classes != [] {
      assert forall i | 0 <= i < |classes| - 1 :: classes[1..][i] == classes[i + 1];
      ToggleLightsNone(m, c, classes[1..]);
    }
  }

  /** There is nothing to toggle exactly when the device, lantern and torch searches all come back empty. */
  lemma NothingToToggleIff(m: ModState, c: ClientState)
    requires m.Resolved()
    ensures NothingToToggle(m, c) <==>
      FindNightVisionSpec(m, c, true).None? &&
      FindHandlightSpec(m, c, LightClasses[0], true).None? && FindHandlightSpec(m, c, LightClasses[1], true).None?
  {
    FindItemFirst(c, NightVision);
    NoLightFound(m, c, LightClasses[0]);
    NoLightFound(m, c, LightClasses[1]);
  }

  /**
   * ToggleNightVision does what InitSlots does to the controller and nothing
   * more: in particular it never changes the toggle state. It succeeds exactly
   * when the slots resolve, and the player keeps every stack.
   */
  lemma ToggleKeepsState(m: ModState, c: ClientState)
    ensures var i := InitSlotsSpec(m, c); var r := ToggleSpec(m, c);
      r.m == i.m && r.m.state == m.state && r.out == i.out &&
      (!i.out ==> r.c == c) && Quiet(c, r.c)
  {
    InitSlotsProps(m, c);
    var i := InitSlotsSpec(m, c);
    if i.out {
      ToggleResolvedProps(i.m, i.c);
    }
  }

  /**
   * A device outside the head slot goes in: the head slot is cleared when
   * occupied, then the first device found is moved there.
   */
  lemma ToggleEquipsDevice(m: ModState, c: ClientState)
    requires m.Resolved()
    requires !IsNightVisionDevice(c.StackAt(CharRef(m.head.value))) && FindItem(c, NightVision).Some?
    ensures var head := CharRef(m.head.value); var r := ToggleResolved(m, c);
      r.c.requests ==
        c.requests + (if c.StackAt(head).Some? then [AwayRequest(head)] else []) +
        [ToRequest(FindItem(c, NightVision).value, head)]
  {
    var nv := FindItem(c, NightVision).value;
    FindItemFirst(c, NightVision);
    FoundOccupied(c, NightVision);
    EquipIntoProps(c, nv, CharRef(m.head.value));
  }

  /**
   * A device in the head slot comes off: the first request takes it away, and
   * armour for the head is looked for only in the `Equipped` state; then the
   * first head piece found is moved into the head slot, after a second clear
   * when the host left the device there.
   */
  lemma ToggleRemovesDevice(m: ModState, c: ClientState)
    requires m.Resolved() && IsNightVisionDevice(c.StackAt(CharRef(m.head.value)))
    ensures var head := CharRef(m.head.value); var r := ToggleResolved(m, c);
      |r.c.requests| > |c.requests| && r.c.requests[..|c.requests| + 1] == c.requests + [AwayRequest(head)] &&
      (m.state != Equipped ==> r.c.requests == c.requests + [AwayRequest(head)]) &&
      (m.state == Equipped ==>
        var c1 := ClearSlotSpec(c, head).1; var f := FindItem(c1, ArmourFor(Head));
        r.c.requests == c.requests + [AwayRequest(head)] +
          (if f.Some? then (if c1.StackAt(head).Some? then [AwayRequest(head)] else []) + [ToRequest(f.value, head)] else []))
  {
    var head := CharRef(m.head.value);
    var c1 := ClearSlotSpec(c, head).1;
    assert c1.requests == c.requests + [AwayRequest(head)] by {
      ClearSlotProps(c, head);
    }
    if m.state == Equipped {
      FindAndEquipTypeRequests(c1, Head, m.head.value);
      var d := FindAndEquipTypeSpec(c1, Head, m.head).1;
      assert d.requests[..|c.requests| + 1] == c.requests + [AwayRequest(head)];
    }
  }

  /**
   * With no device about, a light already in the off-hand is taken away, the
   * lantern first: the torch counts only when no lantern is found.
   */
  lemma ToggleClearsHandLight(m: ModState, c: ClientState)
    requires m.Resolved()
    requires !IsNightVisionDevice(c.StackAt(CharRef(m.head.value))) && FindItem(c, NightVision).None?
    requires HandHolds(m, c, LightClasses[0]) || (FindItem(c, Light(LightClasses[0])).None? && HandHolds(m, c, LightClasses[1]))
    ensures var r := ToggleResolved(m, c);
      r.c.requests == c.requests + [AwayRequest(HotbarRef(m.hand.value))] && r.c.chat == c.chat
  {
    var hand := HotbarRef(m.hand.value);
    assert c.StackAt(hand).Some?;
    ClearSlotProps(c, hand);
  }

  /**
   * With no device about and no lantern in the off-hand, a lantern found
   * elsewhere goes into the off-hand, replacing whatever is there, a torch
   * included.
   */
  lemma ToggleEquipsLantern(m: ModState, c: ClientState)
    requires m.Resolved()
    requires !IsNightVisionDevice(c.StackAt(CharRef(m.head.value))) && FindItem(c, NightVision).None?
    requires !HandHolds(m, c, LightClasses[0]) && FindItem(c, Light(LightClasses[0])).Some?
    ensures var hand := HotbarRef(m.hand.value); var r := ToggleResolved(m, c);
      r.c.requests ==
        c.requests + (if c.StackAt(hand).Some? then [AwayRequest(hand)] else []) +
        [ToRequest(FindItem(c, Light(LightClasses[0])).value, hand)]
  {
    var hand := HotbarRef(m.hand.value);
    var l := FindItem(c, Light(LightClasses[0])).value;
    FindItemFirst(c, Light(LightClasses[0]));
    FoundOccupied(c, Light(LightClasses[0]));
    assert c.StackAt(l) == c.Slots(l.container)[l.index].stack;
    assert l != hand;
    EquipIntoProps(c, l, hand);
  }

  /**
   * With no device about, no lantern anywhere and no torch in the off-hand, a
   * torch found elsewhere goes into the off-hand, replacing whatever is there.
   */
  lemma ToggleEquipsTorch(m: ModState, c: ClientState)
    requires m.Resolved()
    requires !IsNightVisionDevice(c.StackAt(CharRef(m.head.value))) && FindItem(c, NightVision).None?
    requires FindItem(c, Light(LightClasses[0])).None?
    requires !HandHolds(m, c, LightClasses[1]) && FindItem(c, Light(LightClasses[1])).Some?
    ensures var hand := HotbarRef(m.hand.value); var r := ToggleResolved(m, c);
      r.c.requests ==
        c.requests + (if c.StackAt(hand).Some? then [AwayRequest(hand)] else []) +
        [ToRequest(FindItem(c, Light(LightClasses[1])).value, hand)]
  {
    var hand := HotbarRef(m.hand.value);
    NoLightFound(m, c, LightClasses[0]);
    assert FindHandlightSpec(m, c, LightClasses[0], true).None?;
    var l := FindItem(c, Light(LightClasses[1])).value;
    FindItemFirst(c, Light(LightClasses[1]));
    FoundOccupied(c, Light(LightClasses[1]));
    assert c.StackAt(l) == c.Slots(l.container)[l.index].stack;
    assert l != hand;
    EquipIntoProps(c, l, hand);
  }
}
