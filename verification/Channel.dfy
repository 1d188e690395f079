/**
  Capability-gated message channels whose table slots are reused under a 32-bit
  generation, with every send and receive attempt written to the audit log.
 */
module Channel {
  import opened Audit
  import opened Common

  const MAX_CHANNELS := 16
  const CHANNEL_BUF := 64
  const CHANNEL_DEPTH := 8
  const MAX_CAPS := 16
  const GENERATIONS := U32   // generations are 32-bit and wrap

  // ------------------------------------------------------------------
  // Capabilities
  // ------------------------------------------------------------------

  const SEND: bv8 := 0x08
  const RECV: bv8 := 0x10
  const CHANNEL_RIGHTS: bv8 := 0x18

  predicate HasRights(held: bv8, need: bv8) { held & need == need }

  datatype Oid = Oid(index: nat, generation: nat)

  /** A capability names no object, a channel, or some other kernel object. */
  datatype Cap = NoCap | ChannelCap(oid: Oid) | OtherCap

  datatype CapSlot = CapSlot(cap: Cap, rights: bv8)

  type CSpace = s: seq<CapSlot> | |s| == MAX_CAPS witness seq(MAX_CAPS, _ => CapSlot(NoCap, 0))

  // ------------------------------------------------------------------
  // One channel: a circular buffer of bounded messages
  // ------------------------------------------------------------------

  type Msg = seq<bv8>

  datatype Chan = Chan(active: bool, generation: nat, msgs: seq<seq<bv8>>, lens: seq<nat>, head: nat, count: nat)

  function Inactive(): Chan
  {
    Chan(false, 0, seq(CHANNEL_DEPTH, _ => seq(CHANNEL_BUF, _ => 0)), seq(CHANNEL_DEPTH, _ => 0), 0, 0)
  }

  ghost predicate WellFormed(c: Chan)
  {
    && |c.msgs| == CHANNEL_DEPTH && |c.lens| == CHANNEL_DEPTH
    && c.head < CHANNEL_DEPTH && c.count <= CHANNEL_DEPTH && c.generation < GENERATIONS
    && (forall i | 0 <= i < CHANNEL_DEPTH :: |c.msgs[i]| == CHANNEL_BUF && c.lens[i] <= CHANNEL_BUF)
    && (!c.active ==> c.count == 0)
  }

  function Slot(c: Chan, i: nat): nat { (c.head + i) % CHANNEL_DEPTH }

  /** The messages waiting, oldest first. */
  ghost function Queue(c: Chan): (q: seq<Msg>)
    requires WellFormed(c)
    ensures |q| == c.count
  {
    seq(c.count, i requires 0 <= i < c.count => c.msgs[Slot(c, i)][..c.lens[Slot(c, i)]])
  }

  function Pushed(c: Chan, data: Msg): Chan
    requires c.count < CHANNEL_DEPTH && |data| <= CHANNEL_BUF
    requires |c.msgs| == CHANNEL_DEPTH && |c.lens| == CHANNEL_DEPTH && |c.msgs[Slot(c, c.count)]| == CHANNEL_BUF
  {
    var tail := Slot(c, c.count);
    c.(msgs := c.msgs[tail := data + c.msgs[tail][|data|..]], lens := c.lens[tail := |data|], count := c.count + 1)
  }

  function Popped(c: Chan): Chan
    requires c.count > 0
  {
    c.(head := (c.head + 1) % CHANNEL_DEPTH, count := c.count - 1)
  }

  lemma SlotsDistinct(c: Chan, i: nat, j: nat)
    requires i < j < CHANNEL_DEPTH
    ensures Slot(c, i) != Slot(c, j)
  {}

  lemma PushAppends(c: Chan, data: Msg)
    requires WellFormed(c) && c.active && c.count < CHANNEL_DEPTH && |data| <= CHANNEL_BUF
    ensures WellFormed(Pushed(c, data)) && Queue(Pushed(c, data)) == Queue(c) + [data]
  {
    var d, tail := Pushed(c, data), Slot(c, c.count);
    assert d.msgs[tail][..|data|] == data;
    forall i: nat | i < c.count ensures Queue(d)[i] == Queue(c)[i] {
      SlotsDistinct(c, i, c.count);
    }
  }

  lemma NextSlot(head: nat, i: nat)
    ensures ((head + 1) % CHANNEL_DEPTH + i) % CHANNEL_DEPTH == (head + (i + 1)) % CHANNEL_DEPTH
  {}

  lemma PopTakesOldest(c: Chan)
    requires WellFormed(c) && c.count > 0
    ensures WellFormed(Popped(c)) && Queue(Popped(c)) == Queue(c)[1..]
  {
    var d := Popped(c);
    forall i: nat | i < c.count - 1 ensures Slot(d, i) == Slot(c, i + 1) { NextSlot(c.head, i); }
  }

  // ------------------------------------------------------------------
  // The abstract table and its history
  // ------------------------------------------------------------------

  /** What a slot is: live or not, how often it was minted, and what is queued. */
  datatype Abs = Abs(live: bool, minted: nat, queue: seq<Msg>)

  type Table = seq<Abs>

  datatype Event =
    | Created(id: nat)
    | Refused(id: nat)          // a create that found no capability slot: minted, not live
    | Sent(id: nat, msg: Msg)
    | Received(id: nat)
    | Destroyed(id: nat)

  predicate CanHappen(t: Table, e: Event)
  {
    && e.id < |t|
    && match e
       case Created(id) => !t[id].live
       case Refused(id) => !t[id].live
       case Sent(id, msg) => t[id].live
       case Received(id) => t[id].live && t[id].queue != []
       case Destroyed(id) => t[id].live
  }

  function After(t: Table, e: Event): (r: Table)
    ensures |r| == |t|
  {
    if !CanHappen(t, e) then t else
    var s := t[e.id];
    t[e.id := match e
              case Created(_) => Abs(true, s.minted + 1, [])
              case Refused(_) => Abs(false, s.minted + 1, [])
              case Sent(_, msg) => s.(queue := s.queue + [msg])
              case Received(_) => s.(queue := s.queue[1..])
              case Destroyed(_) => Abs(false, s.minted, [])]
  }

  function FreshTable(): Table { seq(MAX_CHANNELS, _ => Abs(false, 0, [])) }

  function Reach(t: Table, h: seq<Event>): (r: Table)
    ensures |r| == |t|
  {
    if h == [] then t else After(Reach(t, h[..|h| - 1]), h[|h| - 1])
  }

  /** Every event of `h` could happen when it did. */
  predicate IsHistory(t: Table, h: seq<Event>)
  {
    h == [] || (IsHistory(t, h[..|h| - 1]) && CanHappen(Reach(t, h[..|h| - 1]), h[|h| - 1]))
  }

  lemma HistoryExtends(t: Table, h: seq<Event>, e: Event)
    requires IsHistory(t, h) && CanHappen(Reach(t, h), e)
    ensures IsHistory(t, h + [e]) && Reach(t, h + [e]) == After(Reach(t, h), e)
  {
    assert (h + [e])[..|h|] == h;
  }

  // ------------------------------------------------------------------
  // Stale capabilities
  // ------------------------------------------------------------------

  /** Does the capability minted as number `m` of slot `id` resolve? Only the generation is compared. */
  predicate Resolves(t: Table, id: nat, m: nat)
    requires id < |t|
  {
    t[id].live && t[id].minted % GENERATIONS == m % GENERATIONS
  }

  /** Mint number `m` of slot `id` is over: destroyed, or never went live. */
  predicate Over(t: Table, id: nat, m: nat)
    requires id < |t|
  {
    m < t[id].minted || (m == t[id].minted && !t[id].live)
  }

  lemma {:induction false} OverStaysOver(t: Table, h: seq<Event>, id: nat, m: nat)
    requires IsHistory(t, h) && id < |t| && Over(t, id, m)
    ensures Over(Reach(t, h), id, m)
  {
    if h != [] { OverStaysOver(t, h[..|h| - 1], id, m); }
  }

  lemma {:induction false} OverAlong(h: seq<Event>, k: nat, id: nat, m: nat)
    requires k <= |h| && id < MAX_CHANNELS && Over(Reach(FreshTable(), h[..k]), id, m)
    ensures Over(Reach(FreshTable(), h), id, m)
  {
    if k < |h| {
      assert h[..|h| - 1][..k] == h[..k];
      OverAlong(h[..|h| - 1], k, id, m);
    } else {
      assert h[..k] == h;
    }
  }

  /**
    After any further history, a capability whose channel is over resolves exactly
    when the slot is live again and has been minted a multiple of 2^32 times since;
    within fewer than 2^32 mints it never does.
   */
  lemma StaleResolvesIffWrapped(t: Table, h: seq<Event>, id: nat, m: nat)
    requires IsHistory(t, h) && id < |t| && Over(t, id, m)
    ensures var r := Reach(t, h)[id];
            && (Resolves(Reach(t, h), id, m) <==> r.live && (r.minted - m) % GENERATIONS == 0)
            && (r.minted - m < GENERATIONS ==> !Resolves(Reach(t, h), id, m))
  {
    OverStaysOver(t, h, id, m);
    var r := Reach(t, h)[id];
    SameResidue(r.minted, m);
  }

  lemma SameResidue(a: nat, b: nat)
    requires b <= a
    ensures a % GENERATIONS == b % GENERATIONS <==> (a - b) % GENERATIONS == 0
  {
    var d := a - b;
    assert a == b + d;
    var qb, rb, qd, rd := b / GENERATIONS, b % GENERATIONS, d / GENERATIONS, d % GENERATIONS;
    assert a == (qb + qd) * GENERATIONS + (rb + rd);
  }

  /** `n` rounds of destroying slot 0 and creating it again. */
  ghost function Rounds(n: nat): seq<Event>
  {
    if n == 0 then [] else Rounds(n - 1) + [Destroyed(0), Created(0)]
  }

  lemma {:induction false} RoundsReach(n: nat)
    ensures var h := [Created(0)] + Rounds(n);
            IsHistory(FreshTable(), h) && Reach(FreshTable(), h) == FreshTable()[0 := Abs(true, 1 + n, [])]
  {
    var t, h := FreshTable(), [Created(0)] + Rounds(n);
    if n == 0 {
      assert [Created(0)] + Rounds(0) == [] + [Created(0)];
      HistoryExtends(t, [], Created(0));
    } else {
      RoundsReach(n - 1);
      var g := [Created(0)] + Rounds(n - 1);
      HistoryExtends(t, g, Destroyed(0));
      HistoryExtends(t, g + [Destroyed(0)], Created(0));
      assert h == g + [Destroyed(0)] + [Created(0)];
    }
  }

  /** The wrap is reachable: 2^32 rounds revive the capability of the first incarnation. */
  lemma WrapRevivesStale()
    ensures var h := [Created(0)] + Rounds(GENERATIONS); var t := Reach(FreshTable(), h);
            IsHistory(FreshTable(), h) && Over(t, 0, 1) && Resolves(t, 0, 1)
  {
    hide IsHistory, Reach;
    RoundsReach(GENERATIONS);
  }

  // ------------------------------------------------------------------
  // Order of messages
  // ------------------------------------------------------------------

  /** Messages sent to mint number `m` of slot `id`, in order. */
  ghost function SentTo(t: Table, h: seq<Event>, id: nat, m: nat): seq<Msg>
    requires IsHistory(t, h) && id < |t|
  {
    if h == [] then []
    else
      var p, e := h[..|h| - 1], h[|h| - 1];
      SentTo(t, p, id, m) + (if e.Sent? && e.id == id && Reach(t, p)[id].minted == m then [e.msg] else [])
  }

  /** Messages received from mint number `m` of slot `id`, in order. */
  ghost function ReceivedFrom(t: Table, h: seq<Event>, id: nat, m: nat): seq<Msg>
    requires IsHistory(t, h) && id < |t|
  {
    if h == [] then []
    else
      var p, e := h[..|h| - 1], h[|h| - 1];
      ReceivedFrom(t, p, id, m) + (if e.Received? && e.id == id && Reach(t, p)[id].minted == m then [Reach(t, p)[id].queue[0]] else [])
  }

  /** What is known of mint number `m` of slot `id`, whose state is `s`. */
  ghost predicate InOrder(s: Abs, m: nat, sent: seq<Msg>, received: seq<Msg>)
  {
    && received <= sent
    && (m > s.minted ==> sent == [])
    && (m == s.minted && s.live ==> sent == received + s.queue)
    && (!s.live ==> s.queue == [])
  }

  lemma InOrderStep(t: Table, e: Event, id: nat, m: nat, sent: seq<Msg>, received: seq<Msg>)
    requires id < |t| && CanHappen(t, e) && InOrder(t[id], m, sent, received)
    ensures var sent' := sent + (if e.Sent? && e.id == id && t[id].minted == m then [e.msg] else []);
            var received' := received + (if e.Received? && e.id == id && t[id].minted == m then [t[id].queue[0]] else []);
            InOrder(After(t, e)[id], m, sent', received')
  {
    hide InOrder;
    var s := t[id];
    assert sent + [] == sent && received + [] == received;
    if e.id == id {
      match e
      case Received(_) => TakenInOrder(s, m, sent, received);
      case Sent(_, msg) => QueuedInOrder(s, m, sent, received, msg);
      case Created(_) => ReopenedInOrder(s, m, sent, received, true);
      case Refused(_) => ReopenedInOrder(s, m, sent, received, false);
      case Destroyed(_) => ClosedInOrder(s, m, sent, received);
    }
  }

  lemma ReopenedInOrder(s: Abs, m: nat, sent: seq<Msg>, received: seq<Msg>, live: bool)
    requires InOrder(s, m, sent, received) && !s.live
    ensures InOrder(Abs(live, s.minted + 1, []), m, sent, received)
  {
  }

  lemma ClosedInOrder(s: Abs, m: nat, sent: seq<Msg>, received: seq<Msg>)
    requires InOrder(s, m, sent, received)
    ensures InOrder(Abs(false, s.minted, []), m, sent, received)
  {
  }

  lemma TakenInOrder(s: Abs, m: nat, sent: seq<Msg>, received: seq<Msg>)
    requires InOrder(s, m, sent, received) && s.live && s.queue != []
    ensures InOrder(s.(queue := s.queue[1..]), m, sent, if s.minted == m then received + [s.queue[0]] else received)
  {
    if s.minted == m { assert received + s.queue == received + [s.queue[0]] + s.queue[1..]; }
  }

  lemma QueuedInOrder(s: Abs, m: nat, sent: seq<Msg>, received: seq<Msg>, msg: Msg)
    requires InOrder(s, m, sent, received) && s.live
    ensures InOrder(s.(queue := s.queue + [msg]), m, if s.minted == m then sent + [msg] else sent, received)
  {
    if s.minted == m { assert sent + [msg] == received + (s.queue + [msg]); }
  }

  /** In every history, what was received from an incarnation is a prefix of what was sent to it, and the rest is queued while it lives. */
  lemma {:induction false} ReceivedIsPrefixOfSent(h: seq<Event>, id: nat, m: nat)
    requires IsHistory(FreshTable(), h) && id < MAX_CHANNELS
    ensures InOrder(Reach(FreshTable(), h)[id], m, SentTo(FreshTable(), h, id, m), ReceivedFrom(FreshTable(), h, id, m))
  {
    hide InOrder, CanHappen, After;
    if h == [] {
      FreshInOrder(id, m);
    } else {
      var p := h[..|h| - 1];
      ReceivedIsPrefixOfSent(p, id, m);
      InOrderStep(Reach(FreshTable(), p), h[|h| - 1], id, m, SentTo(FreshTable(), p, id, m), ReceivedFrom(FreshTable(), p, id, m));
    }
  }

  lemma FreshInOrder(id: nat, m: nat)
    requires id < MAX_CHANNELS
    ensures InOrder(FreshTable()[id], m, [], [])
  {}

  // ------------------------------------------------------------------
  // The kernel's table
  // ------------------------------------------------------------------

  /** The table as its history describes it. */
  ghost function TableOf(channels: seq<Chan>, minted: seq<nat>): Table
    requires |channels| == |minted| && forall i | 0 <= i < |channels| :: WellFormed(channels[i])
  {
    seq(|channels|, i requires 0 <= i < |channels| => Abs(channels[i].active, minted[i], Queue(channels[i])))
  }

  /** Channels, mint counts and history agree. */
  ghost predicate Agree(channels: seq<Chan>, minted: seq<nat>, history: seq<Event>)
  {
    && |channels| == MAX_CHANNELS && |minted| == MAX_CHANNELS
    && (forall i | 0 <= i < MAX_CHANNELS :: WellFormed(channels[i]) && channels[i].generation == minted[i] % GENERATIONS)
    && IsHistory(FreshTable(), history) && Reach(FreshTable(), history) == TableOf(channels, minted)
  }

  /** Replacing one channel as an event prescribes keeps the agreement. */
  lemma AgreeStep(channels: seq<Chan>, minted: seq<nat>, history: seq<Event>, c: Chan, e: Event)
    requires Agree(channels, minted, history) && e.id < MAX_CHANNELS && CanHappen(TableOf(channels, minted), e)
    requires WellFormed(c)
    requires var s := After(TableOf(channels, minted), e)[e.id];
             s == Abs(c.active, s.minted, Queue(c)) && c.generation == s.minted % GENERATIONS
    ensures var s := After(TableOf(channels, minted), e)[e.id];
            Agree(channels[e.id := c], minted[e.id := s.minted], history + [e])
  {
    hide IsHistory, Reach, Queue;
    var s := After(TableOf(channels, minted), e)[e.id];
    HistoryExtends(FreshTable(), history, e);
    assert TableOf(channels[e.id := c], minted[e.id := s.minted]) == After(TableOf(channels, minted), e);
  }

  function EmptyCSpace(): CSpace { seq(MAX_CAPS, _ => CapSlot(NoCap, 0)) }

  class Kernel {
    var channels: seq<Chan>
    var cspaces: map<nat, CSpace>     // each task's capability table
    const audit: AuditLog
    ghost var minted: seq<nat>        // how often each slot was minted
    ghost var history: seq<Event>

    ghost predicate Valid()
      reads this, audit, audit.records
    {
      audit.Valid() && Agree(channels, minted, history)
    }

    constructor (log: AuditLog)
      requires log.Valid()
      ensures Valid() && audit == log && history == []
    {
      audit := log;
      channels := seq(MAX_CHANNELS, _ => Inactive());
      cspaces := map[];
      minted := seq(MAX_CHANNELS, _ => 0);
      history := [];
      new;
      assert TableOf(channels, minted) == FreshTable();
    }

    function TaskCap(task: nat, slot: nat): CapSlot
      requires slot < MAX_CAPS
      reads this
    {
      (if task in cspaces then cspaces[task] else EmptyCSpace())[slot]
    }

    /** `caps_channel`: bounds, then generation, then liveness. */
    function Resolve(task: nat, slot: nat, need: bv8): (r: Option<nat>)
      requires |channels| == MAX_CHANNELS
      reads this
    {
      if slot >= MAX_CAPS then None else
      var cs := TaskCap(task, slot);
      if cs.cap.ChannelCap? && HasRights(cs.rights, need) && Current(cs.cap.oid)
      then Some(cs.cap.oid.index) else None
    }

    /** The check `ch_destroy` makes and `caps_channel` ends with. */
    predicate Current(oid: Oid)
      reads this
    {
      oid.index < |channels| && channels[oid.index].generation == oid.generation && channels[oid.index].active
    }

    /** An object id whose incarnation ended earlier in the history is current again exactly on a live slot minted a multiple of 2^32 times since. */
    lemma StaleIsCurrentIff(k: nat, id: nat, m: nat)
      requires Valid() && k <= |history| && id < MAX_CHANNELS && Over(Reach(FreshTable(), history[..k]), id, m)
      ensures |channels| == |minted| == MAX_CHANNELS && minted[id] >= m
      ensures Current(Oid(id, m % GENERATIONS)) <==> channels[id].active && (minted[id] - m) % GENERATIONS == 0
      ensures Current(Oid(id, m % GENERATIONS)) ==> minted[id] - m >= GENERATIONS
    {
      OverAlong(history, k, id, m);
      SameResidue(minted[id], m);
    }

    /** So a stale capability resolves, for a right it carries, exactly then; before 2^32 mints it never does. */
    lemma StaleCapabilityRefused(task: nat, slot: nat, need: bv8, k: nat, id: nat, m: nat)
      requires Valid() && slot < MAX_CAPS && k <= |history| && id < MAX_CHANNELS
      requires TaskCap(task, slot).cap == ChannelCap(Oid(id, m % GENERATIONS))
      requires Over(Reach(FreshTable(), history[..k]), id, m)
      ensures |channels| == |minted| == MAX_CHANNELS && minted[id] >= m
      ensures Resolve(task, slot, need).Some?
              <==> HasRights(TaskCap(task, slot).rights, need) && channels[id].active && (minted[id] - m) % GENERATIONS == 0
      ensures minted[id] - m < GENERATIONS ==> Resolve(task, slot, need).None?
    {
      hide Valid, HasRights;
      StaleIsCurrentIff(k, id, m);
    }

    /** `ch_create`: the first free channel, minted anew, behind the first free capability slot. */
    method Create(cur: nat) returns (slot: int, ghost id: nat)
      requires Valid()
      modifies this
      ensures Valid()
      ensures slot == -1 || 0 <= slot < MAX_CAPS
      ensures history == old(history) + (if id == MAX_CHANNELS then [] else if slot >= 0 then [Created(id)] else [Refused(id)])
      ensures slot >= 0 ==> && id < MAX_CHANNELS && old(TaskCap(cur, slot)).cap == NoCap
                            && TaskCap(cur, slot) == CapSlot(ChannelCap(Oid(id, minted[id] % GENERATIONS)), CHANNEL_RIGHTS)
                            && Resolve(cur, slot, SEND) == Some(id) && Queue(channels[id]) == []
      ensures id == MAX_CHANNELS ==> channels == old(channels) && forall i | 0 <= i < MAX_CHANNELS :: channels[i].active
      ensures id <= MAX_CHANNELS == |old(channels)| && (forall j | 0 <= j < id :: old(channels)[j].active) && (id < MAX_CHANNELS ==> !old(channels)[id].active)
      ensures forall s | 0 <= s < slot :: old(TaskCap(cur, s)).cap != NoCap
      ensures slot == -1 && id < MAX_CHANNELS ==> forall s | 0 <= s < MAX_CAPS :: old(TaskCap(cur, s)).cap != NoCap
      ensures forall t: nat, s: nat | s < MAX_CAPS && !(t == cur && s == slot) :: TaskCap(t, s) == old(TaskCap(t, s))
    {
      hide Agree, audit.Valid;
      var i := FreeChannel();
      id := i;
      if i == MAX_CHANNELS { return -1, i; }
      var table := if cur in cspaces then cspaces[cur] else EmptyCSpace();
      var s := FreeCapSlot(table);
      MintChannel(i, s < MAX_CAPS);
      if s == MAX_CAPS { return -1, i; }
      cspaces := cspaces[cur := table[s := CapSlot(ChannelCap(Oid(i, channels[i].generation)), CHANNEL_RIGHTS)]];
      slot := s;
      assert HasRights(CHANNEL_RIGHTS, SEND);
    }

    method FreeChannel() returns (i: nat)
      requires Valid()
      ensures i <= MAX_CHANNELS == |channels| && (i < MAX_CHANNELS ==> !channels[i].active) && forall j | 0 <= j < i :: channels[j].active
    {
      hide audit.Valid;
      i := 0;
      while i < MAX_CHANNELS && channels[i].active
        invariant i <= MAX_CHANNELS && forall j | 0 <= j < i :: channels[j].active
      {
        i := i + 1;
      }
    }

    static method FreeCapSlot(table: CSpace) returns (s: nat)
      ensures s <= MAX_CAPS && (s < MAX_CAPS ==> table[s].cap == NoCap) && forall j | 0 <= j < s :: table[j].cap != NoCap
    {
      s := 0;
      while s < MAX_CAPS && table[s].cap != NoCap
        invariant s <= MAX_CAPS && forall j | 0 <= j < s :: table[j].cap != NoCap
      {
        s := s + 1;
      }
    }

    /** `ch_send_as`: gated, bounded, and recorded exactly once whatever happens. */
    method SendAs(caller: nat, slot: nat, data: Msg) returns (ok: bool)
      requires Valid()
      modifies this`channels, this`history, audit, audit.records
      ensures Valid() && audit.records == old(audit.records)
      ensures var id := old(Resolve(caller, slot, SEND));
              && ok == (id.Some? && |data| <= CHANNEL_BUF && old(channels)[id.value].count < CHANNEL_DEPTH)
              && history == old(history) + (if ok then [Sent(id.value, data)] else [])
              && (!ok ==> channels == old(channels))
              && audit.log == old(audit.log) + [Record(|old(audit.log)|, caller, Send, id, ok)]
    {
      hide audit.Valid, Agree;
      ReadyToResolve();
      var id := Resolve(caller, slot, SEND);
      ok := id.Some? && |data| <= CHANNEL_BUF && channels[id.value].count < CHANNEL_DEPTH;
      if ok {
        Push(id.value, data);
      }
      audit.Append(caller, Send, id, ok);
    }

    method Push(id: nat, data: Msg)
      requires Valid() && id < |channels| == MAX_CHANNELS && channels[id].active
      requires |data| <= CHANNEL_BUF && channels[id].count < CHANNEL_DEPTH
      modifies this`channels, this`history
      ensures Valid() && history == old(history) + [Sent(id, data)]
    {
      hide audit.Valid, Queue, IsHistory, Reach;
      PushAppends(channels[id], data);
      AgreeStep(channels, minted, history, Pushed(channels[id], data), Sent(id, data));
      history := history + [Sent(id, data)];
      channels := channels[id := Pushed(channels[id], data)];
    }

    /** `ch_recv_as`: -1 when refused, 0 when empty, else the length of the oldest message, cut to the buffer. */
    method RecvAs(caller: nat, slot: nat, out: array<bv8>) returns (n: int)
      requires Valid()
      requires out as object != audit.records as object
      modifies this`channels, this`history, audit, audit.records, out
      ensures Valid() && audit.records == old(audit.records)
      ensures var id := old(Resolve(caller, slot, RECV));
              && audit.log == old(audit.log) + [Record(|old(audit.log)|, caller, Recv, id, id.Some?)]
              && (id.None? ==> n == -1 && history == old(history) && channels == old(channels) && out[..] == old(out[..]))
              && (id.Some? ==>
                   var q := old(Queue(channels[id.value]));
                   if q == [] then n == 0 && history == old(history) && channels == old(channels) && out[..] == old(out[..])
                   else && n == Min(|q[0]|, out.Length) && out[..n] == q[0][..n] && out[n..] == old(out[n..])
                        && history == old(history) + [Received(id.value)])
    {
      hide audit.Valid, Agree;
      ReadyToResolve();
      var id := Resolve(caller, slot, RECV);
      n := -1;
      if id.Some? {
        n := 0;
        var c := channels[id.value];
        if c.count > 0 {
          var len := c.lens[c.head];
          n := Min(len, out.Length);
          ghost var oldest := Queue(c)[0];
          assert oldest == c.msgs[c.head][..len] && oldest[..n] == c.msgs[c.head][..n];
          forall i | 0 <= i < n { out[i] := c.msgs[c.head][i]; }
          Pop(id.value);
        }
      }
      audit.Append(caller, Recv, id, id.Some?);
    }

    method Pop(id: nat)
      requires Valid() && id < |channels| == MAX_CHANNELS && channels[id].active && channels[id].count > 0
      modifies this`channels, this`history
      ensures Valid() && history == old(history) + [Received(id)]
    {
      hide audit.Valid, IsHistory, Reach;
      PopTakesOldest(channels[id]);
      AgreeStep(channels, minted, history, Popped(channels[id]), Received(id));
      history := history + [Received(id)];
      channels := channels[id := Popped(channels[id])];
    }

    /** `ch_destroy`: only the current generation of a live slot; the generation survives. */
    method Destroy(oid: Oid) returns (ok: bool)
      requires Valid()
      modifies this`channels, this`history
      ensures Valid()
      ensures |channels| == |old(channels)| == MAX_CHANNELS
      ensures ok <==> old(Current(oid))
      ensures history == old(history) + (if ok then [Destroyed(oid.index)] else [])
      ensures !ok ==> channels == old(channels)
    {
      hide audit.Valid, IsHistory, Reach;
      var id := oid.index;
      ok := id < MAX_CHANNELS && channels[id].generation == oid.generation && channels[id].active;
      if ok {
        var c := Inactive().(generation := channels[id].generation);
        assert Queue(c) == [];
        AgreeStep(channels, minted, history, c, Destroyed(id));
        history := history + [Destroyed(id)];
        channels := channels[id := c];
      }
    }

    lemma ReadyToResolve()
      requires Valid()
      ensures |channels| == MAX_CHANNELS && forall i | 0 <= i < MAX_CHANNELS :: WellFormed(channels[i])
    {}

    /** Bump the generation of a free slot, with wrap-around, and make it live or leave it dead. */
    method MintChannel(i: nat, live: bool)
      requires Valid() && i < MAX_CHANNELS && |channels| == MAX_CHANNELS && !channels[i].active
      modifies this`channels, this`minted, this`history
      ensures Valid() && history == old(history) + [if live then Created(i) else Refused(i)]
      ensures |channels| == |minted| == MAX_CHANNELS && channels[i].active == live && channels[i].generation == minted[i] % GENERATIONS
      ensures WellFormed(channels[i]) && Queue(channels[i]) == []
    {
      hide audit.Valid, IsHistory, Reach;
      var generation := (channels[i].generation + 1) % GENERATIONS;
      NextGeneration(minted[i]);
      var c := channels[i].(generation := generation, active := live);
      assert |Queue(c)| == 0 && |Queue(channels[i])| == 0;
      AgreeStep(channels, minted, history, c, if live then Created(i) else Refused(i));
      history := history + [if live then Created(i) else Refused(i)];
      channels, minted := channels[i := c], minted[i := minted[i] + 1];
    }
  }

  lemma NextGeneration(m: nat)
    ensures (m % GENERATIONS + 1) % GENERATIONS == (m + 1) % GENERATIONS
  {}
}
