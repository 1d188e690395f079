/**
  What a whole history of maps and teardowns does, stated on guest-physical and
  host-physical addresses.
 */
module EptRuns {
  import opened Common
  import opened EptModel

  const GUEST_PAGES := 0x10_0000_0000   // 2^36: the four indices are bits 47:12

  /** The guest page number the walk actually distinguishes. */
  function Slot(gpa: nat): nat { gpa / PAGE_SIZE % GUEST_PAGES }

  /** `translate` on the abstract view. */
  ghost function Lookup(view: View, gpa: nat): Option<nat>
  {
    if Present(view, gpa) then Some(view[PathOf(gpa)].frame * PAGE_SIZE) else None
  }

  // ------------------------------------------------------------------
  // The four indices are exactly the guest page number modulo 2^36
  // ------------------------------------------------------------------

  lemma PathDigits(gpa: nat)
    ensures var p := PathOf(gpa);
            Slot(gpa) == ((p.i0 * 512 + p.i1) * 512 + p.i2) * 512 + p.i3
  {
    var page := gpa / 4096;
    var a := page / 512;
    var b := a / 512;
    var c := b / 512;
    assert gpa / 0x20_0000 == a && gpa / 0x4000_0000 == b && gpa / 0x80_0000_0000 == c;
    assert c == c / 512 * 512 + c % 512;
    assert page == c / 512 * GUEST_PAGES + (((c % 512 * 512 + b % 512) * 512 + a % 512) * 512 + page % 512);
  }

  lemma SamePathIffSameSlot(x: nat, y: nat)
    ensures PathOf(x) == PathOf(y) <==> Slot(x) == Slot(y)
  {
    PathDigits(x);
    PathDigits(y);
    if Slot(x) == Slot(y) { DigitsUnique(PathOf(x), PathOf(y)); }
  }

  lemma DigitsUnique(p: Path, q: Path)
    requires p.InRange() && q.InRange()
    requires ((p.i0 * 512 + p.i1) * 512 + p.i2) * 512 + p.i3 == ((q.i0 * 512 + q.i1) * 512 + q.i2) * 512 + q.i3
    ensures p == q
  {
    DigitUnique(512, (p.i0 * 512 + p.i1) * 512 + p.i2, p.i3, (q.i0 * 512 + q.i1) * 512 + q.i2, q.i3);
    DigitUnique(512, p.i0 * 512 + p.i1, p.i2, q.i0 * 512 + q.i1, q.i2);
    DigitUnique(512, p.i0, p.i1, q.i0, q.i1);
  }

  lemma SlotAt(base: nat, i: nat)
    ensures Slot(PageAddr(base, i)) == (base / PAGE_SIZE + i) % GUEST_PAGES
  {
    assert (PageAddr(base, i)) / PAGE_SIZE == base / PAGE_SIZE + i;
  }

  /** Fewer than 2^36 pages apart, different pages stay different. */
  lemma SlotsDiffer(base: nat, i: nat, j: nat)
    requires i < j < i + GUEST_PAGES
    ensures Slot(PageAddr(base, i)) != Slot(PageAddr(base, j))
  {
    SlotAt(base, i);
    SlotAt(base, j);
  }

  // ------------------------------------------------------------------
  // What a request writes
  // ------------------------------------------------------------------

  /** Guest pages outside the request keep their leaf. */
  lemma {:induction false} WrittenElsewhere(view: View, q: Request, n: nat, gpa: nat)
    requires forall i: nat | i < n :: Slot(gpa) != Slot(PageAddr(q.guestBase, i))
    requires PathOf(gpa) in view
    ensures PathOf(gpa) in Written(view, q, n) && Written(view, q, n)[PathOf(gpa)] == view[PathOf(gpa)]
  {
    if n > 0 {
      WrittenElsewhere(view, q, n - 1, gpa);
      SamePathIffSameSlot(gpa, PageAddr(q.guestBase, n - 1));
    }
  }

  /** Page `i` holds its own leaf unless a later page of the same request aliases it. */
  lemma {:induction false} WrittenHere(view: View, q: Request, n: nat, i: nat)
    requires i < n <= i + GUEST_PAGES
    ensures PathOf(PageAddr(q.guestBase, i)) in Written(view, q, n)
    ensures Written(view, q, n)[PathOf(PageAddr(q.guestBase, i))] == LeafWord(PageAddr(q.hostBase, i), q.flags)
  {
    if i < n - 1 {
      WrittenHere(view, q, n - 1, i);
      SlotsDiffer(q.guestBase, i, n - 1);
      SamePathIffSameSlot(PageAddr(q.guestBase, i), PageAddr(q.guestBase, n - 1));
    }
  }

  /** The call keeps its promise: page `i` of the guest range translates to page `i` of the host range. */
  ghost predicate MapsAsAsked(view: View, q: Request)
  {
    forall i: nat | i < q.count :: AskedAt(view, q, i)
  }

  ghost predicate AskedAt(view: View, q: Request, i: nat)
  {
    Lookup(view, PageAddr(q.guestBase, i)) == Some(PageAddr(q.hostBase, i))
  }

  /** What a caller can check before the call. */
  predicate Sound(q: Request)
  {
    && q.flags.present
    && q.count <= GUEST_PAGES
    && q.hostBase / PAGE_SIZE + q.count <= FRAME_LIMIT
    && forall i: nat | i < q.count :: Absorbs(q, i)
  }

  /** Host page `i` of the request has every address bit set that the flags would add. */
  predicate Absorbs(q: Request, i: nat)
  {
    Within(q.flags.frame, q.hostBase / PAGE_SIZE + i)
  }

  /**
    A request written in full maps as asked exactly when the flags carry EPT_R and
    no address bit the host pages lack, the host range lies below 2^52 and the
    guest range is at most 2^48 bytes long.
   */
  lemma MapsAsAskedIffSound(view: View, q: Request)
    requires q.count > 0 && q.hostBase % PAGE_SIZE == 0 && q.flags.frame < FRAME_LIMIT
    ensures MapsAsAsked(Written(view, q, q.count), q) <==> Sound(q)
  {
    var after := Written(view, q, q.count);
    if Sound(q) {
      forall i: nat | i < q.count ensures AskedAt(after, q, i) {
        assert Absorbs(q, i);
        WrittenHere(view, q, q.count, i);
        LeafAddress(q, i);
      }
    }
    if MapsAsAsked(after, q) {
      FitsIfAsked(view, q);
      forall i: nat | i < q.count
        ensures q.flags.present && q.hostBase / PAGE_SIZE + i < FRAME_LIMIT && Absorbs(q, i)
      {
        assert AskedAt(after, q, i);
        WrittenHere(view, q, q.count, i);
        LeafAddress(q, i);
      }
      assert Absorbs(q, q.count - 1);
    }
  }

  /** A longer range would need one entry to hold two addresses. */
  lemma FitsIfAsked(view: View, q: Request)
    requires MapsAsAsked(Written(view, q, q.count), q)
    ensures q.count <= GUEST_PAGES
  {
    if q.count > GUEST_PAGES {
      SlotAt(q.guestBase, 0);
      SlotAt(q.guestBase, GUEST_PAGES);
      assert (q.guestBase / PAGE_SIZE + GUEST_PAGES) % GUEST_PAGES == q.guestBase / PAGE_SIZE % GUEST_PAGES;
      SamePathIffSameSlot(PageAddr(q.guestBase, 0), PageAddr(q.guestBase, GUEST_PAGES));
      AskedEverywhere(Written(view, q, q.count), q, 0);
      AskedEverywhere(Written(view, q, q.count), q, GUEST_PAGES);
    }
  }

  lemma AskedEverywhere(view: View, q: Request, i: nat)
    requires MapsAsAsked(view, q) && i < q.count
    ensures AskedAt(view, q, i)
  {
  }

  /** The frame in a leaf is the host page exactly when it fits and absorbs the flag bits. */
  lemma LeafAddress(q: Request, i: nat)
    requires q.hostBase % PAGE_SIZE == 0 && q.flags.frame < FRAME_LIMIT
    ensures var h := q.hostBase / PAGE_SIZE + i;
            var w := LeafWord(PageAddr(q.hostBase, i), q.flags);
            w.frame * PAGE_SIZE == PageAddr(q.hostBase, i) <==> h < FRAME_LIMIT && Within(q.flags.frame, h)
  {
    var h := q.hostBase / PAGE_SIZE + i;
    assert (PageAddr(q.hostBase, i)) / PAGE_SIZE == h && h * PAGE_SIZE == PageAddr(q.hostBase, i);
    OrKeepsIffWithin(h % FRAME_LIMIT, q.flags.frame);
    FrameLimitIsPower();
    OrBound(h % FRAME_LIMIT, q.flags.frame, 40);
  }

  function Pow2(k: nat): nat { if k == 0 then 1 else 2 * Pow2(k - 1) }

  lemma {:induction false} Pow2Add(a: nat, b: nat)
    ensures Pow2(a + b) == Pow2(a) * Pow2(b)
  {
    if a > 0 {
      Pow2Add(a - 1, b);
      assert Pow2(a + b) == 2 * (Pow2(a - 1) * Pow2(b));
    }
  }

  lemma Pow2Doubles(a: nat)
    ensures Pow2(10) == 1024 && Pow2(a + a) == Pow2(a) * Pow2(a)
  {
    Pow2Add(a, a);
    assert Pow2(5) == 32;
  }

  lemma FrameLimitIsPower()
    ensures Pow2(40) == FRAME_LIMIT
  {
    Pow2Doubles(10);
    Pow2Doubles(20);
  }

  lemma {:induction false} OrBound(a: nat, b: nat, k: nat)
    requires a < Pow2(k) && b < Pow2(k)
    ensures BitOr(a, b) < Pow2(k)
  {
    if k > 0 && a > 0 && b > 0 { OrBound(a / 2, b / 2, k - 1); }
  }

  // ------------------------------------------------------------------
  // Histories
  // ------------------------------------------------------------------

  /** A completed call: `done` pages of a request were written, or everything was torn down. */
  datatype Event = Mapped(q: Request, done: nat) | TornDown

  ghost function EmptyView(): View { ViewOf(map[], map[]) }

  ghost function Replay(trace: seq<Event>): View
  {
    if trace == [] then EmptyView()
    else match trace[|trace| - 1]
      case Mapped(q, done) => Written(Replay(trace[..|trace| - 1]), q, done)
      case TornDown => EmptyView()
  }

  predicate Lawful(e: Event)
  {
    e.Mapped? && e.done > 0 ==> e.done <= e.q.count && Contains(e.q.grant, e.q.guestBase, e.q.count) && e.q.guestBase % PAGE_SIZE == 0
  }

  /** Event `k` wrote guest page `gpa`, as page `i` of its request, inside its grant, and nothing was torn down since. */
  ghost predicate Justifies(trace: seq<Event>, k: nat, i: nat, gpa: nat)
  {
    && k < |trace| && trace[k].Mapped? && i < trace[k].done
    && Slot(gpa) == Slot(PageAddr(trace[k].q.guestBase, i))
    && Covers(trace[k].q.grant, PageAddr(trace[k].q.guestBase, i), 1)
    && forall j | k <= j < |trace| :: trace[j].Mapped?
  }

  /** In every history, whatever translates was granted to a map since the last teardown. */
  lemma {:induction false} OnlyGrantedPagesTranslate(trace: seq<Event>, gpa: nat)
    requires forall e <- trace :: Lawful(e)
    requires Present(Replay(trace), gpa)
    ensures exists k: nat, i: nat :: Justifies(trace, k, i, gpa)
  {
    if trace != [] {
      hide Contains, PathOf, ViewOf;
      var last, before := |trace| - 1, trace[..|trace| - 1];
      match trace[last]
      case TornDown =>
      case Mapped(q, done) =>
        if i: nat :| i < done && Slot(gpa) == Slot(PageAddr(q.guestBase, i)) {
          assert Lawful(trace[last]);
          ContainsMeansCovers(q.grant, q.guestBase, q.count);
          assert Justifies(trace, last, i, gpa);
        } else {
          ReplayIsTotal(before, gpa);
          WrittenElsewhere(Replay(before), q, done, gpa);
          OnlyGrantedPagesTranslate(before, gpa);
          var k: nat, i: nat :| Justifies(before, k, i, gpa);
          assert Justifies(trace, k, i, gpa);
        }
    }
  }

  lemma {:induction false} ReplayIsTotal(trace: seq<Event>, gpa: nat)
    ensures PathOf(gpa) in Replay(trace)
  {
    if trace != [] && trace[|trace| - 1].Mapped? {
      ReplayIsTotal(trace[..|trace| - 1], gpa);
      WrittenGrows(Replay(trace[..|trace| - 1]), trace[|trace| - 1].q, trace[|trace| - 1].done, PathOf(gpa));
    }
  }

  lemma {:induction false} WrittenGrows(view: View, q: Request, n: nat, p: Path)
    requires p in view
    ensures p in Written(view, q, n)
  {
    if n > 0 { WrittenGrows(view, q, n - 1, p); }
  }

  // ------------------------------------------------------------------
  // Windows of 2^48 bytes, which the walk cannot tell apart
  // ------------------------------------------------------------------

  const WINDOW := GUEST_PAGES * PAGE_SIZE

  function WindowOf(gpa: nat): nat { gpa / WINDOW }

  /** An address translates as the same offset of the first window does. */
  lemma WindowIgnored(view: View, gpa: nat)
    ensures Lookup(view, gpa) == Lookup(view, gpa % WINDOW) && (Present(view, gpa) <==> Present(view, gpa % WINDOW))
  {
    SlotOfOffset(gpa);
    SamePathIffSameSlot(gpa, gpa % WINDOW);
  }

  lemma SlotOfOffset(gpa: nat)
    ensures Slot(gpa) == Slot(gpa % WINDOW)
  {
    var w, o := gpa / WINDOW, gpa % WINDOW;
    assert gpa == w * GUEST_PAGES * PAGE_SIZE + o;
    assert gpa / PAGE_SIZE == w * GUEST_PAGES + o / PAGE_SIZE;
  }

  /** Addresses with the same slot are on the same page exactly in the same window. */
  lemma SamePageIffSameWindow(x: nat, y: nat)
    requires Slot(x) == Slot(y)
    ensures x / PAGE_SIZE == y / PAGE_SIZE <==> WindowOf(x) == WindowOf(y)
  {
    WindowOfPage(x);
    WindowOfPage(y);
  }

  lemma WindowOfPage(x: nat)
    ensures WindowOf(x) == x / PAGE_SIZE / GUEST_PAGES
  {
  }

  /** Event `k` mapped the very page `gpa` lies on. */
  ghost predicate MapsItself(trace: seq<Event>, k: nat, i: nat, gpa: nat)
  {
    Justifies(trace, k, i, gpa) && gpa / PAGE_SIZE == PageAddr(trace[k].q.guestBase, i) / PAGE_SIZE
  }

  /** What justifies an address mapped the address itself exactly when they share a window; then its grant contains the address. */
  lemma GrantCoversAddressItself(trace: seq<Event>, k: nat, i: nat, gpa: nat)
    requires Justifies(trace, k, i, gpa) && Lawful(trace[k])
    ensures MapsItself(trace, k, i, gpa) <==> WindowOf(gpa) == WindowOf(PageAddr(trace[k].q.guestBase, i))
    ensures MapsItself(trace, k, i, gpa) ==> var g := trace[k].q.grant; g.startGpa <= gpa < g.startGpa + g.frames * PAGE_SIZE
  {
    hide Slot, WindowOf, Contains;
    SamePageIffSameWindow(gpa, PageAddr(trace[k].q.guestBase, i));
  }

  /** Every page the history's maps wrote lies in window `w`. */
  ghost predicate InWindow(trace: seq<Event>, w: nat)
  {
    forall e <- trace | e.Mapped? && e.done > 0 :: WindowOf(e.q.guestBase) == w == WindowOf(PageAddr(e.q.guestBase, e.done - 1))
  }

  /** In a history that stays in one window, whichever that is, a translating address was mapped itself exactly when it lies in that window. */
  lemma MappedItselfIffInWindow(trace: seq<Event>, w: nat, gpa: nat)
    requires (forall e <- trace :: Lawful(e)) && InWindow(trace, w) && Present(Replay(trace), gpa)
    ensures (exists k: nat, i: nat :: MapsItself(trace, k, i, gpa)) <==> WindowOf(gpa) == w
  {
    hide Slot, WindowOf, Contains, Replay, Lawful;
    OnlyGrantedPagesTranslate(trace, gpa);
    var k: nat, i: nat :| Justifies(trace, k, i, gpa);
    assert trace[k] in trace;
    PageInWindow(trace, w, k, i);
    GrantCoversAddressItself(trace, k, i, gpa);
    if k': nat, i': nat :| MapsItself(trace, k', i', gpa) {
      assert trace[k'] in trace;
      PageInWindow(trace, w, k', i');
      GrantCoversAddressItself(trace, k', i', gpa);
    }
  }

  lemma PageInWindow(trace: seq<Event>, w: nat, k: nat, i: nat)
    requires InWindow(trace, w) && k < |trace| && trace[k].Mapped? && i < trace[k].done
    ensures WindowOf(PageAddr(trace[k].q.guestBase, i)) == w
  {
    var q := trace[k].q;
    assert trace[k] in trace;
    Between(q.guestBase, PageAddr(q.guestBase, i), PageAddr(q.guestBase, trace[k].done - 1));
  }

  lemma Between(x: nat, y: nat, z: nat)
    requires x <= y <= z && WindowOf(x) == WindowOf(z)
    ensures WindowOf(y) == WindowOf(x)
  {
  }

  /** In another window it is not: an address no grant covers translates. */
  lemma UngrantedAliasTranslates()
    ensures var q := Request(MemGrant(0, 1), 0, 0x1000, 1, Word(true, 0, 6));
            && Lawful(Mapped(q, 1))
            && Lookup(Replay([Mapped(q, 1)]), 0x1_0000_0000_0000) == Some(0x1000)
            && !Covers(q.grant, 0x1_0000_0000_0000, 1)
  {
    var q := Request(MemGrant(0, 1), 0, 0x1000, 1, Word(true, 0, 6));
    assert [Mapped(q, 1)][..0] == [];
    WrittenHere(Replay([]), q, 1, 0);
    SamePathIffSameSlot(0, 0x1_0000_0000_0000);
  }

  // ------------------------------------------------------------------
  // Histories of the real object
  // ------------------------------------------------------------------

  datatype Op = DoMap(q: Request) | DoUnmapAll

  /** The event of a call and its result, made on an EPT that stands for `view`. */
  ghost predicate Answers(view: View, op: Op, r: Result<()>, e: Event)
  {
    match op
    case DoUnmapAll => e == TornDown && r.Ok?
    case DoMap(q) =>
      && e.Mapped? && e.q == q
      && match Refusal(view, q)
         case Some(error) => r == Err(error) && e.done == 0
         case None => (r.Ok? && e.done == q.count) || (r == Err(OutOfPages) && e.done < q.count)
  }

  /** Event by event, the trace is what the calls did. */
  ghost predicate Answered(ops: seq<Op>, rs: seq<Result<()>>, trace: seq<Event>)
  {
    |trace| == |rs| <= |ops| && forall k | 0 <= k < |trace| :: Answers(Replay(trace[..k]), ops[k], rs[k], trace[k])
  }

  /** Call `k` was a map whose page `i`, inside the grant passed to it, justifies `gpa`. */
  ghost predicate Granted(ops: seq<Op>, trace: seq<Event>, k: nat, i: nat, gpa: nat)
  {
    Justifies(trace, k, i, gpa) && k < |ops| && ops[k] == DoMap(trace[k].q)
  }

  /**
    Any sequence of calls, with an allocator of any size that serves only this EPT
    meanwhile: the EPT means exactly what the calls replay to, every address that
    translates was granted to one of those calls, and the pages of other owners
    are as they were.
   */
  method RunOps(a: Arena, e: Ept, ops: seq<Op>) returns (rs: seq<Result<()>>, ghost trace: seq<Event>)
    requires e.Valid(a) && e.View(a) == EmptyView()
    modifies a, e
    ensures e.Valid(a) && e.View(a) == Replay(trace)
    ensures |rs| == |ops| && Answered(ops, rs, trace) && forall ev <- trace :: Lawful(ev)
    ensures forall gpa: nat | e.Translate(a, gpa).Some? :: exists k: nat, i: nat :: Granted(ops, trace, k, i, gpa)
    ensures Foreign(a.mem, e.tab) == old(Foreign(a.mem, e.tab))
  {
    hide Tree, Booked, ViewOf, Foreign, Written, Contains, Answers, Replay, Lawful, e.Valid, e.Translate;
    rs, trace := [], [];
    ReplayNothing();
    for k := 0 to |ops|
      invariant e.Valid(a) && e.View(a) == Replay(trace) && |trace| == k
      invariant Answered(ops, rs, trace) && forall ev <- trace :: Lawful(ev)
      invariant Foreign(a.mem, e.tab) == old(Foreign(a.mem, e.tab))
    {
      var r, ev := Call(a, e, ops[k]);
      ReplayExtends(trace, ev);
      AnsweredExtends(ops, rs, trace, r, ev);
      rs, trace := rs + [r], trace + [ev];
    }
    forall gpa: nat | e.Translate(a, gpa).Some? ensures exists k: nat, i: nat :: Granted(ops, trace, k, i, gpa) {
      TranslateIsLookup(e, a, gpa);
      var k, i := JustifiedByCall(ops, rs, trace, gpa);
    }
  }

  method Call(a: Arena, e: Ept, op: Op) returns (r: Result<()>, ghost ev: Event)
    requires e.Valid(a)
    modifies a, e
    ensures e.Valid(a) && Lawful(ev) && Answers(old(e.View(a)), op, r, ev)
    ensures e.View(a) == match ev case Mapped(q, done) => Written(old(e.View(a)), q, done) case TornDown => EmptyView()
    ensures Foreign(a.mem, e.tab) == old(Foreign(a.mem, e.tab))
  {
    hide Tree, Booked, ViewOf, Foreign, Written, Contains, Overlaps, PathsOf, TablesFor, e.Valid;
    match op
    case DoMap(q) =>
      ghost var done;
      r, done := e.Map(a, q);
      ev := Mapped(q, done);
    case DoUnmapAll =>
      e.UnmapAll(a);
      r, ev := Ok(()), TornDown;
  }

  lemma ReplayNothing()
    ensures Replay([]) == EmptyView()
  {
  }

  lemma AnsweredExtends(ops: seq<Op>, rs: seq<Result<()>>, trace: seq<Event>, r: Result<()>, ev: Event)
    requires Answered(ops, rs, trace) && |trace| < |ops| && Answers(Replay(trace), ops[|trace|], r, ev)
    ensures Answered(ops, rs + [r], trace + [ev])
  {
    hide Answers, Replay;
    var all := trace + [ev];
    forall k | 0 <= k < |all| ensures Answers(Replay(all[..k]), ops[k], (rs + [r])[k], all[k]) {
      assert all[..k] == trace[..k];
    }
  }

  lemma JustifiedByCall(ops: seq<Op>, rs: seq<Result<()>>, trace: seq<Event>, gpa: nat) returns (k: nat, i: nat)
    requires Answered(ops, rs, trace) && (forall ev <- trace :: Lawful(ev)) && Present(Replay(trace), gpa)
    ensures Granted(ops, trace, k, i, gpa)
  {
    hide Replay, Lawful, Present;
    OnlyGrantedPagesTranslate(trace, gpa);
    k, i :| Justifies(trace, k, i, gpa);
    assert Answers(Replay(trace[..k]), ops[k], rs[k], trace[k]);
  }

  lemma ReplayExtends(trace: seq<Event>, e: Event)
    ensures Replay(trace + [e]) == match e
              case Mapped(q, done) => Written(Replay(trace), q, done)
              case TornDown => EmptyView()
  {
    assert (trace + [e])[..|trace|] == trace;
  }

  /** While every map carried EPT_R, the pages in use are those that translate. */
  lemma UsedPagesTranslate(e: Ept, a: Arena)
    requires e.Valid(a) && e.readable
    ensures forall p :: p in e.used <==> p in e.View(a) && e.View(a)[p].present
  {
  }

  /** While no map ran dry: one root, and one table per distinct index prefix in use. */
  lemma TablesArePrefixes(e: Ept, a: Arena)
    requires e.Valid(a) && e.clean && e.root != 0
    ensures e.tables == 1 + |Prefixes(e.used, 1)| + |Prefixes(e.used, 2)| + |Prefixes(e.used, 3)|
  {
    CoverCount(e.used);
    assert |e.tab| == |e.tab.Keys|;
  }

  lemma TranslateIsLookup(e: Ept, a: Arena, gpa: nat)
    requires e.Valid(a)
    ensures PathOf(gpa) in e.View(a) && e.Translate(a, gpa) == Lookup(e.View(a), gpa)
  {
  }

  /** The client's view of one call: what `translate` returns afterwards, on the request and everywhere else. */
  method MapThenTranslate(a: Arena, e: Ept, q: Request) returns (r: Result<()>)
    requires e.Valid(a) && q.flags.frame < FRAME_LIMIT
    modifies a, e
    ensures e.Valid(a)
    ensures old(Refusal(e.View(a), q)).Some? ==> r == Err(old(Refusal(e.View(a), q)).value)
    ensures old(Refusal(e.View(a), q)).None? ==> (r.Ok? <==> |TablesFor(q) - old(e.tab.Keys)| <= |old(a.pool)|)
    ensures r.Ok? && q.count > 0 ==> ((forall i: nat | i < q.count :: TranslatesTo(e, a, q, i)) <==> Sound(q))
    ensures forall gpa: nat | Outside(q, gpa) :: e.Translate(a, gpa) == old(e.Translate(a, gpa))
    ensures r.Err? && r.error != OutOfPages ==> forall gpa: nat :: e.Translate(a, gpa) == old(e.Translate(a, gpa))
  {
    hide Tree, Booked, ViewOf, Written, PathOf, Contains, Slot, Sound, e.Valid, e.Translate, Overlaps, TablesFor;
    ghost var view := e.View(a);
    forall gpa: nat ensures PathOf(gpa) in view && e.Translate(a, gpa) == Lookup(view, gpa) { TranslateIsLookup(e, a, gpa); }
    var res, done := e.Map(a, q);
    r := res;
    ghost var after := e.View(a);
    forall gpa: nat ensures e.Translate(a, gpa) == Lookup(after, gpa) { TranslateIsLookup(e, a, gpa); }
    forall gpa: nat | Outside(q, gpa) || done == 0 ensures Lookup(after, gpa) == Lookup(view, gpa) {
      WrittenElsewhere(view, q, done, gpa);
    }
    if r.Ok? && q.count > 0 {
      MapsAsAskedIffSound(view, q);
      forall i: nat | i < q.count ensures TranslatesTo(e, a, q, i) <==> AskedAt(after, q, i) {
        TranslateIsLookup(e, a, PageAddr(q.guestBase, i));
      }
    }
  }

  ghost predicate TranslatesTo(e: Ept, a: Arena, q: Request, i: nat)
    requires e.Valid(a)
    reads e, a
  {
    e.Translate(a, PageAddr(q.guestBase, i)) == Some(PageAddr(q.hostBase, i))
  }

  /** No page of the request shares the address's slot. */
  ghost predicate Outside(q: Request, gpa: nat)
  {
    forall i: nat | i < q.count :: Slot(gpa) != Slot(PageAddr(q.guestBase, i))
  }
}
