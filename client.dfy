/**
 * The host client as the controller sees it: the character, hotbar and backpack
 * containers, the two transfer operations, and the chat line.
 *
 * The host's transfer internals are opaque. The host answers each transfer with
 * the next entry of a reply script (an exhausted script refuses), and a reply
 * that accepts names the slot the stack lands in. Every attempt is logged in
 * `requests`, whether or not the host accepts it.
 */
module Host {
  import opened Items

  datatype Container = Character | Hotbar | Backpack

  datatype SlotRef = SlotRef(container: Container, index: nat)

  datatype Reply = Refuse | Accept(into: SlotRef)

  /** A transfer attempt: shift-click a slot away, or move a slot's stack into a given slot. */
  datatype Request = AwayRequest(src: SlotRef) | ToRequest(src: SlotRef, dst: SlotRef)

  /** The chat lines the controller shows. */
  datatype Notice = StrippedNotice | EquippedNotice | NoLightNotice

  function CharRef(i: nat): SlotRef { SlotRef(Character, i) }

  function HotbarRef(i: nat): SlotRef { SlotRef(Hotbar, i) }

  datatype ClientState = ClientState(
    character: seq<Slot>,
    hotbar: seq<Slot>,
    backpack: seq<Slot>,
    replies: seq<Reply>,
    requests: seq<Request>,
    chat: seq<Notice>)
  {
    function Slots(k: Container): seq<Slot>
    {
      match k
      case Character => character
      case Hotbar => hotbar
      case Backpack => backpack
    }

    predicate Holds(r: SlotRef)
    {
      r.index < |Slots(r.container)|
    }

    /** The stack in a slot; a reference past the end of its container reads as empty. */
    function StackAt(r: SlotRef): Option<Stack>
    {
      if Holds(r) then Slots(r.container)[r.index].stack else None
    }

    /** The same containers with one slot's stack replaced. */
    function WithStack(r: SlotRef, s: Option<Stack>): (c: ClientState)
    {
      if !Holds(r) then this
      else
        match r.container
        case Character => this.(character := character[r.index := character[r.index].(stack := s)])
        case Hotbar => this.(hotbar := hotbar[r.index := hotbar[r.index].(stack := s)])
        case Backpack => this.(backpack := backpack[r.index := backpack[r.index].(stack := s)])
    }

    function NextReply(): Reply
    {
      if replies == [] then Refuse else replies[0]
    }

    /** The state after the host has taken its next reply and logged the request. */
    function Attempt(q: Request): (c: ClientState)
    {
      this.(replies := if replies == [] then [] else replies[1..], requests := requests + [q])
    }

    /** Move the stack of `src` into `dst`, leaving `src` empty. */
    function Move(src: SlotRef, dst: SlotRef): ClientState
    {
      WithStack(src, None).WithStack(dst, StackAt(src))
    }
  }

  /** Two states whose containers have the same sizes hold the same slot references. */
  predicate SameSizes(c: ClientState, d: ClientState)
  {
    |d.character| == |c.character| && |d.hotbar| == |c.hotbar| && |d.backpack| == |c.backpack|
  }

  /** Replacing one stack changes only that slot, and neither the containers' sizes nor the logs. */
  lemma WithStackAt(c: ClientState, r: SlotRef, s: Option<Stack>)
    ensures var d := c.WithStack(r, s);
      SameSizes(c, d) &&
      (forall q :: d.StackAt(q) == if q == r && c.Holds(r) then s else c.StackAt(q)) &&
      d.replies == c.replies && d.requests == c.requests && d.chat == c.chat
  {
  }

  /** The host may put a stack taken away into an empty hotbar or backpack slot. */
  predicate AwayTarget(c: ClientState, src: SlotRef, into: SlotRef)
  {
    into.container != Character && c.Holds(into) && c.StackAt(into).None? && c.StackAt(src).Some?
  }

  /** TryTransferAway: the result says whether the host moved the stack out of `src`. */
  function TransferAway(c: ClientState, src: SlotRef): (r: (bool, ClientState))
  {
    var c1 := c.Attempt(AwayRequest(src));
    match c.NextReply()
    case Accept(into) =>
      if AwayTarget(c, src, into) then (true, c1.Move(src, into)) else (false, c1)
    case Refuse => (false, c1)
  }

  /** TryTransferTo: the host moves the whole stack of `src` into the empty slot `dst`, or refuses. */
  function TransferTo(c: ClientState, src: SlotRef, dst: SlotRef): (r: (bool, ClientState))
  {
    var c1 := c.Attempt(ToRequest(src, dst));
    if c.NextReply() == Accept(dst) && c.Holds(dst) && c.StackAt(dst).None? && c.StackAt(src).Some?
    then (true, c1.Move(src, dst))
    else (false, c1)
  }

  /** The stacks held by all three containers, counted with multiplicity. */
  function StacksIn(s: seq<Slot>): multiset<Stack>
  {
    if s == [] then multiset{} else Bag(s[0].stack) + StacksIn(s[1..])
  }

  function Bag(s: Option<Stack>): multiset<Stack>
  {
    if s.Some? then multiset{s.value} else multiset{}
  }

  function Stacks(c: ClientState): multiset<Stack>
  {
    StacksIn(c.character) + StacksIn(c.hotbar) + StacksIn(c.backpack)
  }

  lemma {:induction false} StacksInConcat(a: seq<Slot>, b: seq<Slot>)
    ensures StacksIn(a + b) == StacksIn(a) + StacksIn(b)
    decreases |a|
  {
    if a == [] {
      assert a + b == b;
    } else {
      assert (a + b)[0] == a[0] && (a + b)[1..] == a[1..] + b;
      StacksInConcat(a[1..], b);
    }
  }

  /** Replacing one slot trades the stack it held for the new one. */
  lemma StacksInUpdate(s: seq<Slot>, i: nat, x: Slot)
    requires i < |s|
    ensures StacksIn(s[i := x]) + Bag(s[i].stack) == StacksIn(s) + Bag(x.stack)
  {
    var (pre, post) := (s[..i], s[i + 1..]);
    assert s == pre + ([s[i]] + post);
    assert s[i := x] == pre + ([x] + post);
    StacksInConcat(pre, [s[i]] + post);
    StacksInConcat(pre, [x] + post);
    assert StacksIn([s[i]] + post) == Bag(s[i].stack) + StacksIn(post);
    assert StacksIn([x] + post) == Bag(x.stack) + StacksIn(post);
  }

  /** Trading `o` for `n` in one of three parts trades it in their sum. */
  lemma Trade(a: multiset<Stack>, a': multiset<Stack>, h: multiset<Stack>, b: multiset<Stack>, o: multiset<Stack>, n: multiset<Stack>)
    requires a' + o == a + n
    ensures a' + h + b + o == a + h + b + n
    ensures h + a' + b + o == h + a + b + n
    ensures h + b + a' + o == h + b + a + n
  {
    forall x
      ensures (a' + h + b + o)[x] == (a + h + b + n)[x]
      ensures (h + a' + b + o)[x] == (h + a + b + n)[x]
      ensures (h + b + a' + o)[x] == (h + b + a + n)[x]
    {
      assert (a' + o)[x] == (a + n)[x];
    }
  }

  lemma WithStackStacks(c: ClientState, r: SlotRef, s: Option<Stack>)
    requires c.Holds(r)
    ensures Stacks(c.WithStack(r, s)) + Bag(c.StackAt(r)) == Stacks(c) + Bag(s)
  {
    var i := r.index;
    var d := c.WithStack(r, s);
    var (ch, hb, bp) := (StacksIn(c.character), StacksIn(c.hotbar), StacksIn(c.backpack));
    match r.container
    case Character =>
      var x := c.character[i].(stack := s);
      StacksInUpdate(c.character, i, x);
      assert d.character == c.character[i := x] && d.hotbar == c.hotbar && d.backpack == c.backpack;
      Trade(ch, StacksIn(d.character), hb, bp, Bag(c.StackAt(r)), Bag(s));
    case Hotbar =>
      var x := c.hotbar[i].(stack := s);
      StacksInUpdate(c.hotbar, i, x);
      assert d.character == c.character && d.hotbar == c.hotbar[i := x] && d.backpack == c.backpack;
      Trade(hb, StacksIn(d.hotbar), ch, bp, Bag(c.StackAt(r)), Bag(s));
    case Backpack =>
      var x := c.backpack[i].(stack := s);
      StacksInUpdate(c.backpack, i, x);
      assert d.character == c.character && d.hotbar == c.hotbar && d.backpack == c.backpack[i := x];
      Trade(bp, StacksIn(d.backpack), ch, hb, Bag(c.StackAt(r)), Bag(s));
  }

  /** Moving a stack into an empty slot neither creates nor destroys a stack. */
  lemma MoveConserves(c: ClientState, src: SlotRef, dst: SlotRef)
    requires c.StackAt(src).Some? && c.Holds(dst) && c.StackAt(dst).None?
    ensures Stacks(c.Move(src, dst)) == Stacks(c)
  {
    var c1 := c.WithStack(src, None);
    WithStackStacks(c, src, None);
    WithStackAt(c, src, None);
    assert Stacks(c1) + Bag(c.StackAt(src)) == Stacks(c);
    assert c1.Holds(dst) && c1.StackAt(dst) == None;
    WithStackStacks(c1, dst, c.StackAt(src));
    assert Stacks(c.Move(src, dst)) == Stacks(c1) + Bag(c.StackAt(src));
  }

  /** Where every stack is after a move of `src` into `dst`. */
  lemma MoveAt(c: ClientState, src: SlotRef, dst: SlotRef)
    requires c.Holds(src) && c.Holds(dst) && src != dst
    ensures var d := c.Move(src, dst);
      SameSizes(c, d) &&
      (forall q :: d.StackAt(q) == if q == dst then c.StackAt(src) else if q == src then None else c.StackAt(q)) &&
      d.replies == c.replies && d.requests == c.requests && d.chat == c.chat
  {
    WithStackAt(c, src, None);
    var c1 := c.WithStack(src, None);
    WithStackAt(c1, dst, c.StackAt(src));
  }

  /**
   * TryTransferAway logs one request and leaves the chat and the containers'
   * sizes alone, and it conserves the player's stacks.
   */
  lemma TransferAwayKeeps(c: ClientState, src: SlotRef)
    ensures var d := TransferAway(c, src).1;
      SameSizes(c, d) &&
      d.requests == c.requests + [AwayRequest(src)] && d.chat == c.chat &&
      Stacks(d) == Stacks(c)
  {
    var c1 := c.Attempt(AwayRequest(src));
    assert Stacks(c1) == Stacks(c);
    if TransferAway(c, src).0 {
      var into := c.NextReply().into;
      MoveConserves(c1, src, into);
      MoveAt(c1, src, into);
    }
  }

  /**
   * When TryTransferAway succeeds, `src` held a stack, which is now in the slot
   * of the hotbar or the backpack the host named, which was empty, and `src` is
   * empty. When it fails no slot changes.
   */
  lemma TransferAwayAt(c: ClientState, src: SlotRef)
    ensures var (ok, d) := TransferAway(c, src);
      (ok ==> c.StackAt(src).Some? && d.StackAt(src).None? &&
              c.NextReply().Accept? && AwayTarget(c, src, c.NextReply().into) &&
              d.StackAt(c.NextReply().into) == c.StackAt(src)) &&
      (forall q :: d.StackAt(q) == c.StackAt(q) || (ok && q == src) || (ok && q == c.NextReply().into))
  {
    var c1 := c.Attempt(AwayRequest(src));
    if TransferAway(c, src).0 {
      MoveAt(c1, src, c.NextReply().into);
    }
  }

  /**
   * TryTransferTo logs one request and leaves the chat and the containers'
   * sizes alone, and it conserves the player's stacks.
   */
  lemma TransferToKeeps(c: ClientState, src: SlotRef, dst: SlotRef)
    ensures var d := TransferTo(c, src, dst).1;
      SameSizes(c, d) &&
      d.requests == c.requests + [ToRequest(src, dst)] && d.chat == c.chat &&
      Stacks(d) == Stacks(c)
  {
    var c1 := c.Attempt(ToRequest(src, dst));
    assert Stacks(c1) == Stacks(c);
    if TransferTo(c, src, dst).0 {
      assert TransferTo(c, src, dst).1 == c1.Move(src, dst);
      assert c1.StackAt(src).Some? && c1.Holds(dst) && c1.StackAt(dst).None?;
      MoveConserves(c1, src, dst);
      MoveAt(c1, src, dst);
    } else {
      assert TransferTo(c, src, dst).1 == c1;
    }
  }

  /**
   * TryTransferTo succeeds exactly when the host accepts into `dst`, `dst` is
   * empty and `src` is not; then `dst` holds the stack `src` held and `src` is
   * empty. No other slot changes.
   */
  lemma TransferToAt(c: ClientState, src: SlotRef, dst: SlotRef)
    ensures var (ok, d) := TransferTo(c, src, dst);
      (ok <==> c.NextReply() == Accept(dst) && c.Holds(dst) && c.StackAt(dst).None? && c.StackAt(src).Some?) &&
      (ok ==> d.StackAt(dst) == c.StackAt(src) && d.StackAt(src).None?) &&
      (forall q :: d.StackAt(q) == c.StackAt(q) || (ok && (q == src || q == dst)))
  {
    var c1 := c.Attempt(ToRequest(src, dst));
    if TransferTo(c, src, dst).0 {
      MoveAt(c1, src, dst);
    }
  }

  /** The host client: its inventory, the reply script, the request log and the chat. */
  class Client {
    var character: seq<Slot>
    var hotbar: seq<Slot>
    var backpack: seq<Slot>
    var replies: seq<Reply>
    var requests: seq<Request>
    var chat: seq<Notice>

    function State(): ClientState
      reads this
    {
      ClientState(character, hotbar, backpack, replies, requests, chat)
    }

    constructor (character: seq<Slot>, hotbar: seq<Slot>, backpack: seq<Slot>, replies: seq<Reply>)
      ensures State() == ClientState(character, hotbar, backpack, replies, [], [])
    {
      this.character := character;
      this.hotbar := hotbar;
      this.backpack := backpack;
      this.replies := replies;
      this.requests := [];
      this.chat := [];
    }

    method SetStack(r: SlotRef, s: Option<Stack>)
      modifies this
      ensures State() == old(State()).WithStack(r, s)
    {
      match r.container
      case Character =>
        if r.index < |character| {
          character := character[r.index := character[r.index].(stack := s)];
        }
      case Hotbar =>
        if r.index < |hotbar| {
          hotbar := hotbar[r.index := hotbar[r.index].(stack := s)];
        }
      case Backpack =>
        if r.index < |backpack| {
          backpack := backpack[r.index := backpack[r.index].(stack := s)];
        }
    }

    /** Take the host's next reply and log the request. */
    method TakeReply(q: Request) returns (reply: Reply)
      modifies this
      ensures reply == old(State()).NextReply()
      ensures State() == old(State()).Attempt(q)
    {
      if |replies| == 0 {
        reply := Refuse;
      } else {
        reply := replies[0];
        replies := replies[1..];
      }
      requests := requests + [q];
    }

    method TryTransferAway(src: SlotRef) returns (ok: bool)
      modifies this
      ensures (ok, State()) == TransferAway(old(State()), src)
    {
      var reply := TakeReply(AwayRequest(src));
      ok := reply.Accept? && AwayTarget(State(), src, reply.into);
      if ok {
        var s := State().StackAt(src);
        SetStack(src, None);
        SetStack(reply.into, s);
      }
    }

    method TryTransferTo(src: SlotRef, dst: SlotRef) returns (ok: bool)
      modifies this
      ensures (ok, State()) == TransferTo(old(State()), src, dst)
    {
      var reply := TakeReply(ToRequest(src, dst));
      var st := State();
      ok := reply == Accept(dst) && st.Holds(dst) && st.StackAt(dst).None? && st.StackAt(src).Some?;
      if ok {
        var s := st.StackAt(src);
        SetStack(src, None);
        SetStack(dst, s);
      }
    }

    method ShowChatMessage(n: Notice)
      modifies this
      ensures State() == old(State()).(chat := old(State()).chat + [n])
    {
      chat := chat + [n];
    }
  }
}
