/**
  The receive ring shared by the network card and the polled driver. The card
  stores a frame in four separate steps (payload, length, DD, head); the driver
  reads DD, then the length, then the payload, and hands the slot back. Between
  any two accesses of the driver the card may take any number of steps.
 */
module E1000 {
  import opened Common

  const RING := 64
  const BUF_BYTES := 2048


  /** What the card stored in a slot: the whole buffer and the 16-bit length it wrote. */
  datatype Frame = Frame(buf: seq<bv8>, length: nat)

  predicate IsFrame(f: Frame) { |f.buf| == BUF_BYTES && f.length < 0x1_0000 }

  /** Where the card is in storing the current frame. */
  datatype Phase = Idle | PayloadDone(f: Frame) | LengthDone(f: Frame) | Published

  /** The slot of the k-th frame. */
  function Slot(k: nat): nat { k % RING }

  lemma SlotsApart(i: nat, j: nat)
    requires i < j < i + RING
    ensures Slot(i) != Slot(j)
  {}

  function Next(slot: nat): nat { (slot + 1) % RING }

  function Prev(slot: nat): nat { (slot + RING - 1) % RING }

  lemma SlotNext(k: nat)
    ensures Next(Slot(k)) == Slot(k + 1) && Slot(k + RING) == Slot(k) && Slot(k) < RING && Slot(Slot(k)) == Slot(k)
  {}

  lemma SlotPrev(k: nat)
    ensures Slot(k + RING - 1) == Prev(Slot(k))
  {}

  /** The driver takes a frame if its length is sane and fits the caller's buffer. */
  predicate Takes(f: Frame, capacity: nat) { f.length != 0 && f.length <= BUF_BYTES && f.length <= capacity }

  predicate LengthValid(length: nat) { length != 0 && length <= BUF_BYTES }

  /** The bytes a frame's length announces. */
  function Payload(f: Frame): seq<bv8> { if f.length <= |f.buf| then f.buf[..f.length] else f.buf }

  /** What reaches the caller from consumed frames, given the buffer size of each poll. */
  function Deliveries(frames: seq<Frame>, capacities: seq<nat>): (d: seq<seq<bv8>>)
    requires |frames| == |capacities|
    ensures |d| <= |frames|
  {
    if frames == [] then []
    else
      var n := |frames| - 1;
      Deliveries(frames[..n], capacities[..n]) + (if Takes(frames[n], capacities[n]) then [Payload(frames[n])] else [])
  }

  function Payloads(frames: seq<Frame>): (p: seq<seq<bv8>>)
    ensures |p| == |frames|
  {
    seq(|frames|, i requires 0 <= i < |frames| => Payload(frames[i]))
  }

  /** Nothing is lost, in order and once each, exactly when every frame is well formed and fits the buffer it was polled with. */
  lemma {:induction false} DeliversAll(frames: seq<Frame>, capacities: seq<nat>)
    requires |frames| == |capacities|
    ensures Deliveries(frames, capacities) == Payloads(frames) <==> forall i | 0 <= i < |frames| :: Takes(frames[i], capacities[i])
  {
    if frames != [] {
      var n := |frames| - 1;
      DeliversAll(frames[..n], capacities[..n]);
      assert Payloads(frames) == Payloads(frames[..n]) + [Payload(frames[n])];
      if Deliveries(frames, capacities) == Payloads(frames) {
        assert Takes(frames[n], capacities[n]);
        assert Deliveries(frames, capacities)[..n] == Payloads(frames)[..n];
        assert forall i | 0 <= i < n :: frames[..n][i] == frames[i] && capacities[..n][i] == capacities[i];
      }
    }
  }

  // ------------------------------------------------------------------
  // The shared ring
  // ------------------------------------------------------------------

  /**
    Descriptors, buffers and registers, with auxiliary history: the frames whose DD
    the card has set, how many slots the driver has handed back, and whether it is
    working on the next one. Neither actor reads the history.
   */
  datatype Ring = Ring(dd: seq<bool>, length: seq<nat>, buf: seq<seq<bv8>>, rdh: nat, rdt: nat, phase: Phase,
                       stored: seq<Frame>, consumed: nat, busy: bool)
  {
    function FirstWaiting(): nat { if busy then consumed + 1 else consumed }

    ghost predicate Shape()
    {
      && |dd| == |length| == |buf| == RING
      && FirstWaiting() <= |stored| < consumed + RING
      && rdt == Slot(consumed + RING - 1)
      && forall i | 0 <= i < |stored| :: IsFrame(stored[i])
    }

    /** Frame `k` sits complete in its slot. */
    ghost predicate Filled(k: nat)
    {
      && k < |stored| && |dd| == |length| == |buf| == RING
      && dd[Slot(k)] && length[Slot(k)] == stored[k].length && buf[Slot(k)] == stored[k].buf
    }

    ghost predicate Clear(k: nat) { |dd| == RING && !dd[Slot(k)] }

    ghost predicate Waiting() { forall k: nat | FirstWaiting() <= k < |stored| :: Filled(k) }

    ghost predicate Free() { forall k: nat | |stored| <= k < consumed + RING :: Clear(k) }

    /** The card's half-written frame sits in the first free slot. */
    ghost predicate CardConsistent()
      requires Shape()
    {
      match phase
      case Idle => rdh == Slot(|stored|)
      case PayloadDone(f) => rdh == Slot(|stored|) && IsFrame(f) && |stored| < consumed + RING - 1 && buf[rdh] == f.buf
      case LengthDone(f) => rdh == Slot(|stored|) && IsFrame(f) && |stored| < consumed + RING - 1 && buf[rdh] == f.buf && length[rdh] == f.length
      case Published => |stored| > 0 && rdh == Slot(|stored| - 1)
    }

    /** What holds at every moment, whoever moves next. */
    ghost predicate Inv() { Shape() && Waiting() && Free() && CardConsistent() }
  }

  /** One step of the card; with no free descriptor (RDH == RDT) it stays idle. */
  function NicStep(r: Ring, f: Frame): Ring
    requires |r.dd| == |r.length| == |r.buf| == RING && r.rdh < RING
  {
    match r.phase
    case Idle => if r.rdh == r.rdt then r else r.(buf := r.buf[r.rdh := f.buf], phase := PayloadDone(f))
    case PayloadDone(g) => r.(length := r.length[r.rdh := g.length], phase := LengthDone(g))
    case LengthDone(g) => r.(dd := r.dd[r.rdh := true], stored := r.stored + [g], phase := Published)
    case Published => r.(rdh := Next(r.rdh), phase := Idle)
  }

  /** What the driver may rely on while the card moves. */
  ghost predicate DriverSees(r: Ring, r': Ring)
  {
    && r.stored <= r'.stored && r'.consumed == r.consumed && r'.busy == r.busy && r'.rdt == r.rdt
    && |r'.dd| == |r.dd| && |r'.length| == |r.length| && |r'.buf| == |r.buf|
    && var s := Slot(r.consumed);
       r.busy && s < |r.dd| && s < |r.length| && s < |r.buf| ==> r'.dd[s] == r.dd[s] && r'.length[s] == r.length[s] && r'.buf[s] == r.buf[s]
  }

  /** Another slot than the card's keeps its frame, or stays clear. */
  lemma OtherSlots(r: Ring, r': Ring, s: nat)
    requires r.Shape() && s == Slot(|r.stored|)
    requires |r'.dd| == |r'.length| == |r'.buf| == RING && r.stored <= r'.stored
    requires forall t | 0 <= t < RING && t != s :: r'.dd[t] == r.dd[t] && r'.length[t] == r.length[t] && r'.buf[t] == r.buf[t]
    ensures forall k: nat | r.consumed <= k < |r.stored| && r.Filled(k) :: r'.Filled(k)
    ensures forall k: nat | |r.stored| < k < r.consumed + RING && r.Clear(k) :: r'.Clear(k)
    ensures r.consumed < |r.stored| ==> var t := Slot(r.consumed); t != s
  {
    forall k: nat | r.consumed <= k < r.consumed + RING && k != |r.stored| ensures Slot(k) != s && Slot(k) < RING {
      if k < |r.stored| { SlotsApart(k, |r.stored|); } else { SlotsApart(|r.stored|, k); }
    }
  }

  lemma CardCanStart(r: Ring)
    requires r.Shape() && r.rdh == Slot(|r.stored|) && r.rdh != r.rdt
    ensures |r.stored| < r.consumed + RING - 1
  {}

  lemma NicWritesKeepInv(r: Ring, f: Frame)
    requires r.Inv() && IsFrame(f) && !r.phase.Published?
    ensures r.rdh < RING && NicStep(r, f).Inv() && DriverSees(r, NicStep(r, f))
  {
    hide Slot, Next;
    SlotNext(|r.stored|);
    SlotNext(r.consumed);
    assert r.Clear(|r.stored|);
    if r.phase.Idle? && r.rdh != r.rdt { CardCanStart(r); }
    OtherSlots(r, NicStep(r, f), r.rdh);
  }

  lemma NicAdvanceKeepsInv(r: Ring, f: Frame)
    requires r.Inv() && r.phase.Published?
    ensures r.rdh < RING && NicStep(r, f).Inv() && DriverSees(r, NicStep(r, f))
  {
    hide Slot, Next;
    SlotNext(|r.stored| - 1);
    var r' := NicStep(r, f);
    forall k: nat | r.FirstWaiting() <= k < |r.stored| ensures r'.Filled(k) { assert r.Filled(k); }
    forall k: nat | |r.stored| <= k < r.consumed + RING ensures r'.Clear(k) { assert r.Clear(k); }
  }

  /** Every step of the card keeps the invariant and the slot the driver is working on. */
  lemma NicKeepsInv(r: Ring, f: Frame)
    requires r.Inv() && IsFrame(f)
    ensures r.rdh < RING && NicStep(r, f).Inv() && DriverSees(r, NicStep(r, f))
  {
    hide Ring.Inv, DriverSees, NicStep;
    if r.phase.Published? { NicAdvanceKeepsInv(r, f); } else { NicWritesKeepInv(r, f); }
  }

  lemma DriverSeesTwice(a: Ring, b: Ring, c: Ring)
    requires DriverSees(a, b) && DriverSees(b, c)
    ensures DriverSees(a, c)
  {}

  // ------------------------------------------------------------------
  // What the driver's own accesses do to the ring
  // ------------------------------------------------------------------

  /** Seeing DD in the next slot means a whole frame is there. */
  lemma DoneMeansStored(r: Ring)
    requires r.Inv() && !r.busy && r.dd[Slot(r.consumed)]
    ensures r.consumed < |r.stored| && r.Filled(r.consumed) && r.(busy := true).Inv()
  {
    SlotNext(r.consumed);
    assert r.consumed >= |r.stored| ==> r.Clear(r.consumed);
    var r' := r.(busy := true);
    forall k: nat | r'.FirstWaiting() <= k < |r'.stored| ensures r'.Filled(k) { assert r.Filled(k); }
    forall k: nat | |r'.stored| <= k < r'.consumed + RING ensures r'.Clear(k) { assert r.Clear(k); }
  }

  /** Seeing no DD means every stored frame has been taken. */
  lemma NotDoneMeansDrained(r: Ring)
    requires r.Inv() && !r.busy && !r.dd[Slot(r.consumed)]
    ensures |r.stored| == r.consumed
  {
    assert r.consumed < |r.stored| ==> r.Filled(r.consumed);
  }

  /** Writes to the slot being worked on do not disturb the card's or the waiting frames. */
  lemma OwnSlotWrite(r: Ring, r': Ring, l: nat, d: bool)
    requires r.Inv() && r.busy
    requires var s := Slot(r.consumed); r' == r.(length := r.length[s := l], dd := r.dd[s := d])
    ensures r'.Inv()
  {
    var s := Slot(r.consumed);
    forall k: nat | r.consumed < k < r.consumed + RING ensures Slot(k) != s && Slot(k) < RING {
      SlotsApart(r.consumed, k);
      SlotNext(k);
    }
    hide Slot;
    forall k: nat | r'.FirstWaiting() <= k < |r'.stored| ensures r'.Filled(k) { assert r.Filled(k); }
    forall k: nat | |r'.stored| <= k < r'.consumed + RING ensures r'.Clear(k) { assert r.Clear(k); }
  }

  /** Writing RDT hands the cleared slot back to the card. */
  lemma HandBack(r: Ring)
    requires r.Inv() && r.busy && !r.dd[Slot(r.consumed)]
    ensures r.(rdt := Slot(r.consumed), consumed := r.consumed + 1, busy := false).Inv()
  {
    var r' := r.(rdt := Slot(r.consumed), consumed := r.consumed + 1, busy := false);
    SlotNext(r.consumed);
    hide Slot;
    forall k: nat | r'.FirstWaiting() <= k < |r'.stored| ensures r'.Filled(k) { assert r.Filled(k); }
    forall k: nat | |r'.stored| <= k < r'.consumed + RING ensures r'.Clear(k) {
      if k < r.consumed + RING { assert r.Clear(k); }
    }
  }

  lemma DeliveriesExtend(stored: seq<Frame>, consumed: nat, capacities: seq<nat>, capacity: nat)
    requires consumed < |stored| && |capacities| == consumed
    ensures Deliveries(stored[..consumed + 1], capacities + [capacity])
            == Deliveries(stored[..consumed], capacities) + (if Takes(stored[consumed], capacity) then [Payload(stored[consumed])] else [])
  {
    assert stored[..consumed + 1][..consumed] == stored[..consumed];
    assert (capacities + [capacity])[..consumed] == capacities;
  }

  // ------------------------------------------------------------------
  // The driver
  // ------------------------------------------------------------------

  datatype Outcome = Empty | Dropped | Took(n: nat)

  class Driver {
    var ring: Ring
    var rxNext: nat
    var rxPackets: nat
    var rxBadLen: nat
    var rxPolls: nat
    var rxEmpty: nat
    var rxRecheckTotal: nat
    var rxRecheckValid: nat
    ghost var capacities: seq<nat>          // buffer size at each consumed frame
    ghost var delivered: seq<seq<bv8>>

    /** Between polls: RDT trails the driver's cursor by one, and what was delivered is explained by what was consumed. */
    ghost predicate Valid()
      reads this
    {
      && ring.Inv() && !ring.busy && rxNext == Slot(ring.consumed) && ring.rdt == Prev(rxNext)
      && |capacities| == ring.consumed
      && delivered == Deliveries(ring.stored[..ring.consumed], capacities)
      && rxPackets == |delivered| && rxBadLen == ring.consumed - |delivered|
    }

    /** `rx_enable`: every descriptor clear, RDH 0, RDT 63. */
    constructor ()
      ensures Valid() && ring.stored == [] && delivered == []
    {
      ring := Ring(seq(RING, _ => false), seq(RING, _ => 0), seq(RING, _ => seq(BUF_BYTES, _ => 0)), 0, RING - 1, Idle, [], 0, false);
      rxNext, rxPackets, rxBadLen, rxPolls, rxEmpty, rxRecheckTotal, rxRecheckValid := 0, 0, 0, 0, 0, 0, 0;
      capacities, delivered := [], [];
    }

    /** Any number of card steps. */
    method CardMoves()
      requires ring.Inv()
      modifies this`ring
      ensures ring.Inv() && DriverSees(old(ring), ring)
    {
      hide Ring.Inv, DriverSees, NicStep;
      var n: nat :| true;
      SeesItself(ring);
      for i := 0 to n
        invariant ring.Inv() && DriverSees(old(ring), ring)
      {
        var f: Frame := *;
        if IsFrame(f) {
          StepReady(ring);
          NicKeepsInv(ring, f);
          DriverSeesTwice(old(ring), ring, NicStep(ring, f));
          ring := NicStep(ring, f);
        }
      }
    }

    /** Copy the payload while the card goes on moving. */
    method CopyPayload(slot: nat, n: nat, out: array<bv8>)
      requires ring.Inv() && ring.busy && slot == Slot(ring.consumed) && n <= out.Length && n <= BUF_BYTES == |ring.buf[slot]|
      modifies this`ring, out
      ensures ring.Inv() && DriverSees(old(ring), ring)
      ensures out[..n] == old(ring).buf[slot][..n] && out[n..] == old(out[n..])
    {
      SeesItself(ring);
      SlotNext(ring.consumed);
      hide Ring.Waiting, Ring.Free, Ring.CardConsistent, Slot;
      for i := 0 to n
        invariant ring.Inv() && DriverSees(old(ring), ring)
        invariant forall k | 0 <= k < i :: out[k] == old(ring).buf[slot][k]
        invariant forall k | i <= k < out.Length :: out[k] == old(out[k])
      {
        ghost var before := ring;
        CardMoves();
        DriverSeesTwice(old(ring), before, ring);
        out[i] := ring.buf[slot][i];
      }
    }

    /** Clear the descriptor of the slot being worked on, then hand it back through RDT. */
    method Rearm(slot: nat)
      requires ring.Inv() && ring.busy && slot == Slot(ring.consumed)
      modifies this`ring
      ensures ring.Inv() && !ring.busy && ring.consumed == old(ring.consumed) + 1 && old(ring.stored) <= ring.stored
    {
      SlotNext(ring.consumed);
      hide Ring.Waiting, Ring.Free, Ring.CardConsistent, Slot;
      CardMoves();
      Overwrite(slot, 0, ring.dd[slot]);
      CardMoves();
      Overwrite(slot, ring.length[slot], false);
      CardMoves();
      HandBack(ring);
      ring := ring.(rdt := slot, consumed := ring.consumed + 1, busy := false);
    }

    method Overwrite(slot: nat, l: nat, d: bool)
      requires ring.Inv() && ring.busy && slot == Slot(ring.consumed)
      modifies this`ring
      ensures ring.Inv() && slot < RING == |old(ring).length| == |old(ring).dd|
      ensures ring == old(ring).(length := old(ring).length[slot := l], dd := old(ring).dd[slot := d])
    {
      SlotNext(ring.consumed);
      hide Ring.Waiting, Ring.Free, Ring.CardConsistent, Slot;
      ghost var before := ring;
      ring := ring.(length := ring.length[slot := l], dd := ring.dd[slot := d]);
      OwnSlotWrite(before, ring, l, d);
    }

    /**
      One turn of the receive loop. The length used is always the one the card
      wrote for this frame, and a rejected frame reads valid again only if it was
      rejected for the caller's buffer.
     */
    method PollSlot(out: array<bv8>) returns (o: Outcome)
      requires Valid()
      modifies this`ring, this`rxNext, this`rxPackets, this`rxBadLen, this`rxEmpty, this`rxRecheckTotal, this`rxRecheckValid, this`capacities, this`delivered, out
      ensures Valid() && old(ring.stored) <= ring.stored
      ensures o.Empty? ==> |old(ring.stored)| <= ring.consumed
      ensures o.Empty? ==> ring.consumed == old(ring.consumed) && capacities == old(capacities) && delivered == old(delivered) && rxEmpty == old(rxEmpty) + 1 && out[..] == old(out[..])
      ensures !o.Empty? ==> && ring.consumed == old(ring.consumed) + 1 && capacities == old(capacities) + [out.Length] && rxEmpty == old(rxEmpty)
                            && o.Took? == Takes(ring.stored[old(ring.consumed)], out.Length)
      ensures o.Dropped? ==> && delivered == old(delivered) && out[..] == old(out[..])
                             && rxRecheckValid == old(rxRecheckValid) + (if LengthValid(ring.stored[old(ring.consumed)].length) then 1 else 0)
      ensures o.Took? ==> && o.n == ring.stored[old(ring.consumed)].length <= out.Length && delivered == old(delivered) + [out[..o.n]]
                          && out[..o.n] == Payload(ring.stored[old(ring.consumed)])
                          && out[o.n..] == old(out[o.n..])
    {
      SlotNext(ring.consumed);
      InvCounts(ring);
      var slot := Slot(rxNext);
      hide Ring.Inv, Ring.Filled, Slot, Next, Prev, Deliveries, Payload, Takes;
      var done := ClaimNext(slot);
      PrefixKept(old(ring), ring);
      if !done {
        rxEmpty := rxEmpty + 1;
        return Empty;
      }
      o := HandleFrame(slot, out);
      Rearm(slot);
      PrefixKept(old(ring), ring);
      Settle(o, out.Length, if o.Took? then out[..o.n] else []);
    }

    /** Move the cursor past the frame just handed back and record what became of it. */
    method Settle(o: Outcome, capacity: nat, ghost bytes: seq<bv8>)
      requires ring.Inv() && !ring.busy && !o.Empty? && ring.consumed == |capacities| + 1 && rxNext == Slot(|capacities|)
      requires delivered == Deliveries(ring.stored[..|capacities|], capacities) && |capacities| < |ring.stored|
      requires o.Took? == Takes(ring.stored[|capacities|], capacity) && (o.Took? ==> bytes == Payload(ring.stored[|capacities|]))
      requires rxPackets == |delivered| + (if o.Took? then 1 else 0) && rxBadLen == ring.consumed - rxPackets
      modifies this`rxNext, this`capacities, this`delivered
      ensures Valid() && capacities == old(capacities) + [capacity] && delivered == old(delivered) + (if o.Took? then [bytes] else [])
    {
      SlotNext(|capacities|);
      SlotPrev(ring.consumed);
      InvCounts(ring);
      hide Ring.Inv, Slot, Next, Prev, Payload, Takes;
      DeliveriesExtend(ring.stored, |capacities|, capacities, capacity);
      capacities := capacities + [capacity];
      if o.Took? { delivered := delivered + [bytes]; }
      rxNext := Next(rxNext);
    }

    /** Read DD. If it is set, the driver owns the slot and the frame in it until it writes RDT. */
    method ClaimNext(slot: nat) returns (done: bool)
      requires ring.Inv() && !ring.busy && slot == Slot(ring.consumed)
      modifies this`ring
      ensures ring.Inv() && ring.busy == done && ring.consumed == old(ring.consumed) && ring.rdt == old(ring.rdt) && old(ring.stored) <= ring.stored
      ensures done ==> ring.consumed < |ring.stored| && ring.Filled(ring.consumed)
      ensures !done ==> |ring.stored| == ring.consumed
    {
      SlotNext(ring.consumed);
      hide Ring.Waiting, Ring.Free, Ring.CardConsistent, Slot;
      CardMoves();
      done := ring.dd[slot];
      if done {
        DoneMeansStored(ring);
        ring := ring.(busy := true);
      } else {
        NotDoneMeansDrained(ring);
      }
    }

    /** Read the length after DD, then copy the payload or count and re-read the rejected descriptor. */
    method HandleFrame(slot: nat, out: array<bv8>) returns (o: Outcome)
      requires ring.Inv() && ring.busy && slot == Slot(ring.consumed) && ring.Filled(ring.consumed)
      modifies this`ring, this`rxPackets, this`rxBadLen, this`rxRecheckTotal, this`rxRecheckValid, out
      ensures ring.Inv() && ring.busy && ring.consumed == old(ring.consumed) && old(ring.stored) <= ring.stored && !o.Empty?
      ensures o.Took? ==> o.n <= out.Length
      ensures var f := old(ring.stored[ring.consumed]);
              if Takes(f, out.Length) then
                && o == Took(f.length) && out[..f.length] == Payload(f) && out[f.length..] == old(out[f.length..])
                && rxPackets == old(rxPackets) + 1 && rxBadLen == old(rxBadLen) && rxRecheckValid == old(rxRecheckValid)
              else
                && o == Dropped && out[..] == old(out[..]) && rxPackets == old(rxPackets) && rxBadLen == old(rxBadLen) + 1
                && rxRecheckValid == old(rxRecheckValid) + (if LengthValid(f.length) then 1 else 0)
    {
      SlotNext(ring.consumed);
      hide Ring.Waiting, Ring.Free, Ring.CardConsistent, Slot;
      ghost var f := ring.stored[ring.consumed];
      assert |f.buf| == BUF_BYTES;
      CardMoves();
      var length := ring.length[slot];
      if LengthValid(length) && length <= out.Length {
        rxPackets := rxPackets + 1;
        CopyPayload(slot, length, out);
        o := Took(length);
      } else {
        rxBadLen := rxBadLen + 1;
        rxRecheckTotal := rxRecheckTotal + 1;
        CardMoves();
        var status := ring.dd[slot];
        CardMoves();
        if status && LengthValid(ring.length[slot]) { rxRecheckValid := rxRecheckValid + 1; }
        o := Dropped;
      }
    }

    /** `receive`: at most one turn per descriptor, until a frame is taken or the next slot is empty. */
    method Receive(out: array<bv8>) returns (r: Option<nat>)
      requires Valid()
      modifies this, out
      ensures Valid() && old(ring.stored) <= ring.stored && rxPolls == old(rxPolls) + 1
      ensures old(ring.consumed) <= ring.consumed <= old(ring.consumed) + RING
      ensures r.Some? ==> r.value <= out.Length && delivered == old(delivered) + [out[..r.value]] && out[r.value..] == old(out[r.value..])
      ensures r.None? ==> delivered == old(delivered) && out[..] == old(out[..])
      ensures r.None? ==> |old(ring.stored)| <= ring.consumed
      ensures capacities == old(capacities) + seq(ring.consumed - old(ring.consumed), _ => out.Length)
      ensures ring.consumed <= |ring.stored|
      ensures var last := ring.consumed - (if r.Some? then 1 else 0);
              && old(ring.consumed) <= last
              && (forall k | old(ring.consumed) <= k < last :: !Takes(ring.stored[k], out.Length))
              && (r.Some? ==> Takes(ring.stored[last], out.Length) && out[..r.value] == Payload(ring.stored[last]))
    {
      hide Ring.Inv, Slot, Deliveries, Takes, Payload;
      InvCounts(ring);
      rxPolls := rxPolls + 1;
      for i := 0 to RING
        invariant Valid() && old(ring.stored) <= ring.stored && rxPolls == old(rxPolls) + 1 && rxEmpty == old(rxEmpty)
        invariant ring.consumed == old(ring.consumed) + i <= |ring.stored|
        invariant delivered == old(delivered) && out[..] == old(out[..])
        invariant capacities == old(capacities) + seq(i, _ => out.Length)
        invariant forall k | old(ring.consumed) <= k < ring.consumed :: !Takes(ring.stored[k], out.Length)
      {
        var o := PollSlot(out);
        InvCounts(ring);
        if o.Empty? { return None; }
        if o.Took? { return Some(o.n); }
      }
      return None;
    }
  }

  /** A ring that has only gained frames delivers the same prefix. */
  lemma PrefixKept(r: Ring, r': Ring)
    requires r.stored <= r'.stored && r.consumed <= |r.stored|
    ensures r'.stored[..r.consumed] == r.stored[..r.consumed]
  {}

  lemma InvCounts(r: Ring)
    requires r.Inv()
    ensures r.FirstWaiting() <= |r.stored| < r.consumed + RING && r.rdt == Slot(r.consumed + RING - 1)
  {}

  lemma SeesItself(r: Ring)
    ensures DriverSees(r, r)
  {}

  lemma StepReady(r: Ring)
    requires r.Inv()
    ensures |r.dd| == |r.length| == |r.buf| == RING && r.rdh < RING
  {}
}
