/**
  The extended page tables of one guest: a four-level tree of 512-entry table
  pages kept in physical memory, built lazily by `Map`, read by `Translate` and
  returned to the page allocator by `UnmapAll`.

  Addresses are 64-bit byte addresses and pages are numbered by address / 4096.
  A 64-bit entry is split into the parts the code tests or masks.
 */
module EptModel {
  import opened Common

  const PAGE_SIZE := 4096
  const ENTRIES := 512
  const FRAME_LIMIT := 0x100_0000_0000     // 2^40 frame numbers fit ADDR_MASK

  /** The address of page `i` of a range. */
  function PageAddr(base: nat, i: nat): nat { base + i * PAGE_SIZE }

  /** A 64-bit entry: EPT_R (bit 0), the frame number in bits 51:12, all other bits. */
  datatype Word = Word(present: bool, frame: nat, rest: nat)

  const EMPTY := Word(false, 0, 0)
  const TABLE_REST := 6                    // EPT_W | EPT_X

  function TableWord(page: nat): Word { Word(true, page, TABLE_REST) }

  /** Bitwise or of two naturals. */
  function BitOr(a: nat, b: nat): nat
  {
    if a == 0 then b
    else if b == 0 then a
    else (if a % 2 == 1 || b % 2 == 1 then 1 else 0) + 2 * BitOr(a / 2, b / 2)
  }

  /** Every bit of `f` is also set in `a`. */
  predicate Within(f: nat, a: nat)
  {
    f == 0 || ((f % 2 == 1 ==> a % 2 == 1) && Within(f / 2, a / 2))
  }

  lemma {:induction false} OrKeepsIffWithin(a: nat, f: nat)
    ensures BitOr(a, f) == a <==> Within(f, a)
    decreases a + f
  {
    if f != 0 {
      if a == 0 {
        NotWithinZero(f);
      } else {
        OrKeepsIffWithin(a / 2, f / 2);
      }
    }
  }

  lemma {:induction false} NotWithinZero(f: nat)
    requires f != 0
    ensures !Within(f, 0)
  {
    if f % 2 == 0 { NotWithinZero(f / 2); }
  }

  /** The leaf written for a host address: `(hpa & ADDR_MASK) | flags`. */
  function LeafWord(hpa: nat, flags: Word): (w: Word)
    ensures w.present == flags.present
  {
    Word(flags.present, BitOr(hpa / PAGE_SIZE % FRAME_LIMIT, flags.frame), flags.rest)
  }

  // ------------------------------------------------------------------
  // The memory grant
  // ------------------------------------------------------------------

  datatype MemGrant = MemGrant(startGpa: nat, frames: nat)

  /** The gate of every mapping; unchecked additions wrap at 64 bits. */
  predicate Contains(g: MemGrant, gpa: nat, count: nat)
  {
    var size := count * PAGE_SIZE;
    var end := gpa + size;
    var grantEnd := (g.startGpa + (g.frames * PAGE_SIZE) % U64) % U64;
    size < U64 && end < U64 && gpa >= g.startGpa && end <= grantEnd && end > gpa
  }

  /** Byte range containment over unbounded integers, the intended meaning. */
  predicate Covers(g: MemGrant, gpa: nat, count: nat)
  {
    0 < count && g.startGpa <= gpa && gpa + count * PAGE_SIZE <= g.startGpa + g.frames * PAGE_SIZE
  }

  /** Wrapping never widens a grant; where its end is representable the gate is exact. */
  lemma ContainsMeansCovers(g: MemGrant, gpa: nat, count: nat)
    ensures Contains(g, gpa, count) ==> Covers(g, gpa, count)
    ensures g.startGpa + g.frames * PAGE_SIZE < U64 ==> (Contains(g, gpa, count) <==> Covers(g, gpa, count))
  {
    var bytes := g.frames * PAGE_SIZE;
    assert bytes % U64 <= bytes;
    var end := g.startGpa + bytes % U64;
    assert end % U64 <= end;
  }

  // ------------------------------------------------------------------
  // Physical memory and the page allocator
  // ------------------------------------------------------------------

  type Table = t: seq<Word> | |t| == ENTRIES witness seq(ENTRIES, _ => EMPTY)
  type Memory = map<nat, Table>

  function ZeroTable(): Table { seq(ENTRIES, _ => EMPTY) }

  class Arena {
    var mem: Memory            // pages handed out and not yet returned
    var pool: set<nat>         // pages that may still be handed out
    ghost var freed: seq<nat>  // every page ever returned, in order

    ghost predicate Valid()
      reads this
    {
      && pool !! mem.Keys
      && (forall p <- pool :: 0 < p < FRAME_LIMIT)
    }

    constructor (pages: set<nat>)
      requires forall p <- pages :: 0 < p < FRAME_LIMIT
      ensures Valid() && mem == map[] && freed == [] && pool == pages
    {
      mem := map[];
      pool := pages;
      freed := [];
    }

    /** A zeroed page nobody holds; nothing and no change exactly when there is none left. */
    method AllocPage() returns (r: Option<nat>)
      requires Valid()
      modifies this
      ensures Valid() && freed == old(freed)
      ensures r.None? <==> old(pool) == {}
      ensures r.None? ==> mem == old(mem) && pool == old(pool)
      ensures r.Some? ==> r.value in old(pool) && pool == old(pool) - {r.value}
      ensures r.Some? ==> r.value !in old(mem) && 0 < r.value < FRAME_LIMIT && mem == old(mem)[r.value := ZeroTable()]
    {
      if pool == {} { return None; }
      var p :| p in pool;
      pool := pool - {p};
      mem := mem[p := ZeroTable()];
      return Some(p);
    }

    method FreePage(p: nat) returns (ok: bool)
      requires Valid()
      modifies this
      ensures ok == (p in old(mem)) && mem == old(mem) - {p}
      ensures freed == (if ok then old(freed) + [p] else old(freed)) && pool == old(pool) + (if ok then {p} else {})
      ensures 0 < p < FRAME_LIMIT ==> Valid()
    {
      ok := p in mem;
      if ok {
        mem := mem - {p};
        pool := pool + {p};
        freed := freed + [p];
      }
    }
  }

  datatype EptError = OutOfPages | Misaligned | Overflow | OutsideGrant | AlreadyMapped
  datatype Result<+T> = Ok(value: T) | Err(error: EptError)

  // ------------------------------------------------------------------
  // The table tree
  // ------------------------------------------------------------------

  /** A table page by its place in the tree: the entry of its parent that links it. */
  datatype Node = Root | Under(parent: Node, index: nat) {
    function Depth(): nat {
      if Root? then 0 else 1 + parent.Depth()
    }
  }

  /** A guest page, named by its four table indices from the root down. */
  datatype Path = Path(i0: nat, i1: nat, i2: nat, i3: nat) {
    predicate InRange() { i0 < ENTRIES && i1 < ENTRIES && i2 < ENTRIES && i3 < ENTRIES }
  }

  /** `idx(gpa, 39)`, `idx(gpa, 30)`, `idx(gpa, 21)` and `idx(gpa, 12)`. */
  function PathOf(gpa: nat): (p: Path)
    ensures p.InRange()
  {
    Path(gpa / 0x80_0000_0000 % ENTRIES, gpa / 0x4000_0000 % ENTRIES, gpa / 0x20_0000 % ENTRIES, gpa / 0x1000 % ENTRIES)
  }

  /** The table at `depth` on the walk to guest page `p`, and the entry the walk reads there. */
  function NodeFor(p: Path, depth: nat): Node
    requires depth <= 3
  {
    if depth == 0 then Root
    else if depth == 1 then Under(Root, p.i0)
    else if depth == 2 then Under(Under(Root, p.i0), p.i1)
    else Under(Under(Under(Root, p.i0), p.i1), p.i2)
  }

  function Index(p: Path, depth: nat): nat
    requires depth <= 3
  {
    if depth == 0 then p.i0 else if depth == 1 then p.i1 else if depth == 2 then p.i2 else p.i3
  }

  /**
    `tab` names every table page of the tree by its place. Distinct places have
    distinct pages, every place but the root is linked from its parent, and every
    non-empty entry of an upper table links a place in `tab`: each table page is
    reached by exactly one path.
   */
  ghost predicate Tree(mem: Memory, tab: map<Node, nat>, root: nat)
  {
    && Root in tab && tab[Root] == root
    && (forall n <- tab :: n.Depth() <= 3 && 0 < tab[n] < FRAME_LIMIT && tab[n] in mem)
    && (forall n <- tab, m <- tab :: tab[n] == tab[m] ==> n == m)
    && (forall n <- tab :: Linked(mem, tab, n))
    && (forall n <- tab :: Closed(mem, tab, n))
  }

  ghost predicate Linked(mem: Memory, tab: map<Node, nat>, n: Node)
    requires n in tab
  {
    n.Under? ==>
      && n.parent in tab && tab[n.parent] in mem && n.index < ENTRIES
      && mem[tab[n.parent]][n.index] == TableWord(tab[n])
  }

  ghost predicate Closed(mem: Memory, tab: map<Node, nat>, n: Node)
    requires n in tab
  {
    n.Depth() < 3 ==>
      && tab[n] in mem
      && forall i | 0 <= i < ENTRIES :: mem[tab[n]][i] == EMPTY || Under(n, i) in tab
  }

  /** The leaf entry for guest page `p`. */
  ghost function Leaf(mem: Memory, tab: map<Node, nat>, p: Path): Word
  {
    var n := NodeFor(p, 3);
    if n in tab && tab[n] in mem && p.i3 < ENTRIES then mem[tab[n]][p.i3] else EMPTY
  }

  type View = imap<Path, Word>

  /** What the tree means: one leaf entry per guest page. */
  ghost function ViewOf(mem: Memory, tab: map<Node, nat>): View
  {
    imap p: Path | p.InRange() :: Leaf(mem, tab, p)
  }

  /** Pages of memory that are not tables of this tree. */
  ghost function Foreign(mem: Memory, tab: map<Node, nat>): Memory
  {
    map p | p in mem && p !in tab.Values :: mem[p]
  }

  // ------------------------------------------------------------------
  // What one store does to the tree
  // ------------------------------------------------------------------

  /** A fresh table linked into an empty entry of upper table `n`. */
  ghost predicate LinkedIn(mem: Memory, tab: map<Node, nat>, n: Node, i: nat, page: nat, mem': Memory, tab': map<Node, nat>)
  {
    && n in tab && n.Depth() < 3 && i < ENTRIES && tab[n] in mem
    && mem[tab[n]][i] == EMPTY && page !in mem && 0 < page < FRAME_LIMIT
    && mem' == mem[page := ZeroTable()][tab[n] := mem[tab[n]][i := TableWord(page)]]
    && tab' == tab[Under(n, i) := page]
  }

  lemma LinkIsNew(mem: Memory, tab: map<Node, nat>, root: nat, n: Node, i: nat)
    requires Tree(mem, tab, root) && n in tab && i < ENTRIES && mem[tab[n]][i] == EMPTY
    ensures Under(n, i) !in tab
  {
    assert Under(n, i) in tab ==> Linked(mem, tab, Under(n, i));
  }

  lemma LinkKeepsNode(mem: Memory, tab: map<Node, nat>, root: nat, n: Node, i: nat, page: nat, mem': Memory, tab': map<Node, nat>, m: Node)
    requires Tree(mem, tab, root) && LinkedIn(mem, tab, n, i, page, mem', tab') && m in tab'
    ensures Linked(mem', tab', m) && Closed(mem', tab', m)
  {
    LinkIsNew(mem, tab, root, n, i);
    if m in tab {
      assert Linked(mem, tab, m) && Closed(mem, tab, m);
    }
  }

  lemma LinkKeepsTree(mem: Memory, tab: map<Node, nat>, root: nat, n: Node, i: nat, page: nat, mem': Memory, tab': map<Node, nat>)
    requires Tree(mem, tab, root) && LinkedIn(mem, tab, n, i, page, mem', tab')
    ensures Tree(mem', tab', root)
  {
    LinkIsNew(mem, tab, root, n, i);
    forall m <- tab' ensures Linked(mem', tab', m) && Closed(mem', tab', m) {
      LinkKeepsNode(mem, tab, root, n, i, page, mem', tab', m);
    }
  }

  lemma LinkKeepsLeaf(mem: Memory, tab: map<Node, nat>, root: nat, n: Node, i: nat, page: nat, mem': Memory, tab': map<Node, nat>, v: Path)
    requires Tree(mem, tab, root) && LinkedIn(mem, tab, n, i, page, mem', tab')
    ensures Leaf(mem', tab', v) == Leaf(mem, tab, v)
  {
    LinkIsNew(mem, tab, root, n, i);
    var m := NodeFor(v, 3);
    assert m in tab ==> tab[m] != tab[n];
  }

  lemma LinkKeepsView(mem: Memory, tab: map<Node, nat>, root: nat, n: Node, i: nat, page: nat, mem': Memory, tab': map<Node, nat>)
    requires Tree(mem, tab, root) && LinkedIn(mem, tab, n, i, page, mem', tab')
    ensures ViewOf(mem', tab') == ViewOf(mem, tab)
  {
    forall v: Path ensures Leaf(mem', tab', v) == Leaf(mem, tab, v) {
      LinkKeepsLeaf(mem, tab, root, n, i, page, mem', tab', v);
    }
  }

  lemma LinkKeepsForeign(mem: Memory, tab: map<Node, nat>, root: nat, n: Node, i: nat, page: nat, mem': Memory, tab': map<Node, nat>)
    requires Tree(mem, tab, root) && LinkedIn(mem, tab, n, i, page, mem', tab')
    ensures Foreign(mem', tab') == Foreign(mem, tab)
  {
    LinkIsNew(mem, tab, root, n, i);
    assert tab'.Values == tab.Values + {page} by {
      forall x | x in tab.Values ensures x in tab'.Values {
        var m :| m in tab && tab[m] == x;
        assert tab'[m] == x;
      }
      assert tab'[Under(n, i)] == page;
    }
    assert tab[n] in tab.Values;
  }

  /** A fresh root alone is a tree that maps nothing. */
  lemma RootIsTree(mem: Memory, page: nat)
    requires page !in mem && 0 < page < FRAME_LIMIT
    ensures var tab := map[Root := page];
            && Tree(mem[page := ZeroTable()], tab, page)
            && ViewOf(mem[page := ZeroTable()], tab) == ViewOf(mem, map[])
            && Foreign(mem[page := ZeroTable()], tab) == Foreign(mem, map[])
  {
    var tab := map[Root := page];
    assert tab[Root] in tab.Values;
    assert forall p: Path :: NodeFor(p, 3) !in tab;
  }

  /** A leaf entry rewritten in the page table of guest page `v`. */
  ghost predicate LeafStored(mem: Memory, tab: map<Node, nat>, v: Path, w: Word, mem': Memory)
  {
    var n := NodeFor(v, 3);
    v.InRange() && n in tab && tab[n] in mem && mem' == mem[tab[n] := mem[tab[n]][v.i3 := w]]
  }

  lemma LeafStoreKeepsTree(mem: Memory, tab: map<Node, nat>, root: nat, v: Path, w: Word, mem': Memory)
    requires Tree(mem, tab, root) && LeafStored(mem, tab, v, w, mem')
    ensures Tree(mem', tab, root)
  {
    var n := NodeFor(v, 3);
    forall m <- tab ensures Linked(mem', tab, m) {
      assert Linked(mem, tab, m);
      assert m.Under? ==> m.parent != n;
    }
    forall m <- tab ensures Closed(mem', tab, m) {
      assert Closed(mem, tab, m);
    }
  }

  lemma LeafStoreUpdatesLeaf(mem: Memory, tab: map<Node, nat>, root: nat, v: Path, w: Word, mem': Memory, u: Path)
    requires Tree(mem, tab, root) && LeafStored(mem, tab, v, w, mem') && u.InRange()
    ensures Leaf(mem', tab, u) == if u == v then w else Leaf(mem, tab, u)
  {
    var n, m := NodeFor(v, 3), NodeFor(u, 3);
    assert m in tab && m != n ==> tab[m] != tab[n];
  }

  lemma LeafStoreUpdatesView(mem: Memory, tab: map<Node, nat>, root: nat, v: Path, w: Word, mem': Memory)
    requires Tree(mem, tab, root) && LeafStored(mem, tab, v, w, mem')
    ensures ViewOf(mem', tab) == ViewOf(mem, tab)[v := w]
    ensures Foreign(mem', tab) == Foreign(mem, tab)
  {
    assert tab[NodeFor(v, 3)] in tab.Values;
    forall u: Path | u.InRange() ensures Leaf(mem', tab, u) == if u == v then w else Leaf(mem, tab, u) {
      LeafStoreUpdatesLeaf(mem, tab, root, v, w, mem', u);
    }
  }

  lemma EntryMeansChild(mem: Memory, tab: map<Node, nat>, root: nat, n: Node, i: nat)
    requires Tree(mem, tab, root) && n in tab && n.Depth() < 3 && i < ENTRIES
    ensures tab[n] in mem
    ensures var e := mem[tab[n]][i];
            && (e.present <==> Under(n, i) in tab)
            && (e.present ==> e.frame == tab[Under(n, i)])
            && (!e.present ==> e == EMPTY)
  {
    assert Closed(mem, tab, n);
    assert Under(n, i) in tab ==> Linked(mem, tab, Under(n, i));
  }

  /** One step of the walk: an entry is present exactly when the next table exists. */
  lemma WalkReads(mem: Memory, tab: map<Node, nat>, root: nat, v: Path, depth: nat)
    requires Tree(mem, tab, root) && depth < 3 && v.InRange() && NodeFor(v, depth) in tab
    ensures var e := mem[tab[NodeFor(v, depth)]][Index(v, depth)];
            && (e.present <==> NodeFor(v, depth + 1) in tab)
            && (e.present ==> e.frame == tab[NodeFor(v, depth + 1)])
            && (!e.present ==> e == EMPTY && NodeFor(v, 3) !in tab)
  {
    EntryMeansChild(mem, tab, root, NodeFor(v, depth), Index(v, depth));
    if NodeFor(v, 3) in tab { AncestorsIn(mem, tab, root, v, depth + 1); }
  }

  lemma {:induction false} AncestorsIn(mem: Memory, tab: map<Node, nat>, root: nat, v: Path, depth: nat)
    requires Tree(mem, tab, root) && depth <= 3 && NodeFor(v, 3) in tab
    ensures NodeFor(v, depth) in tab
    decreases 3 - depth
  {
    if depth < 3 {
      AncestorsIn(mem, tab, root, v, depth + 1);
      assert Linked(mem, tab, NodeFor(v, depth + 1));
    }
  }

  // ------------------------------------------------------------------
  // The abstract mapping and its operations
  // ------------------------------------------------------------------

  datatype Request = Request(grant: MemGrant, guestBase: nat, hostBase: nat, count: nat, flags: Word)

  /** The leaves after the first `n` pages of a request have been written. */
  function Written(view: View, q: Request, n: nat): View
  {
    if n == 0 then view
    else Written(view, q, n - 1)[PathOf(PageAddr(q.guestBase, n - 1)) := LeafWord(PageAddr(q.hostBase, n - 1), q.flags)]
  }

  ghost predicate Overlaps(view: View, q: Request)
  {
    exists i: nat | i < q.count :: Present(view, PageAddr(q.guestBase, i))
  }

  ghost predicate Present(view: View, gpa: nat)
  {
    PathOf(gpa) in view && view[PathOf(gpa)].present
  }

  /** Why a request is refused before anything is touched, in the order the checks run. */
  ghost function Refusal(view: View, q: Request): Option<EptError>
  {
    if q.guestBase + q.count * PAGE_SIZE >= U64 then Some(Overflow)
    else if q.guestBase % PAGE_SIZE != 0 || q.hostBase % PAGE_SIZE != 0 then Some(Misaligned)
    else if q.count == 0 then None
    else if !Contains(q.grant, q.guestBase, q.count) then Some(OutsideGrant)
    else if Overlaps(view, q) then Some(AlreadyMapped)
    else None
  }

  /** The tables a set of guest pages needs. */
  ghost function Cover(pages: set<Path>): set<Node>
  {
    {Root} + Prefixes(pages, 1) + Prefixes(pages, 2) + Prefixes(pages, 3)
  }

  ghost function Prefixes(pages: set<Path>, depth: nat): set<Node>
    requires depth <= 3
  {
    set v | v in pages :: NodeFor(v, depth)
  }

  /** `places` and every table on the walk to `v`. */
  ghost function WithPath(places: set<Node>, v: Path): set<Node>
  {
    places + {NodeFor(v, 1)} + {NodeFor(v, 2)} + {NodeFor(v, 3)}
  }

  lemma CoverCount(pages: set<Path>)
    ensures |Cover(pages)| == 1 + |Prefixes(pages, 1)| + |Prefixes(pages, 2)| + |Prefixes(pages, 3)|
  {
    var p1, p2, p3 := Prefixes(pages, 1), Prefixes(pages, 2), Prefixes(pages, 3);
    assert forall n <- p1 :: n.Depth() == 1;
    assert forall n <- p2 :: n.Depth() == 2;
    assert forall n <- p3 :: n.Depth() == 3;
    assert {Root} !! p1 && ({Root} + p1) !! p2 && ({Root} + p1 + p2) !! p3;
  }

  lemma CoverGrows(pages: set<Path>, v: Path)
    ensures Cover(pages + {v}) == WithPath(Cover(pages), v)
  {
    forall d | 1 <= d <= 3 ensures Prefixes(pages + {v}, d) == Prefixes(pages, d) + {NodeFor(v, d)} {}
  }

  /** The guest pages of the first `n` pages of a request. */
  ghost function PathsOf(q: Request, n: nat): set<Path>
  {
    if n == 0 then {} else PathsOf(q, n - 1) + {PathOf(PageAddr(q.guestBase, n - 1))}
  }

  /** The tables a request needs to be mapped in full. */
  ghost function TablesFor(q: Request): set<Node> { if q.count == 0 then {} else Cover(PathsOf(q, q.count)) }

  lemma NoPaths(q: Request)
    ensures PathsOf(q, 0) == {} && Cover(PathsOf(q, 0)) == {Root}
  {
  }

  lemma NothingWritten(view: View, q: Request)
    ensures Written(view, q, 0) == view
  {
  }

  lemma {:induction false} CoverMonotone(q: Request, i: nat, j: nat)
    requires i <= j
    ensures Cover(PathsOf(q, i)) <= Cover(PathsOf(q, j))
  {
    hide PathOf, Cover, NodeFor;
    if i < j {
      CoverMonotone(q, i, j - 1);
      CoverGrows(PathsOf(q, j - 1), PathOf(PageAddr(q.guestBase, j - 1)));
    }
  }

  /** One page more needs the tables on its walk, and no more than the whole request does. */
  lemma NextPath(q: Request, i: nat, keys: set<Node>)
    requires i < q.count
    ensures var v := PathOf(PageAddr(q.guestBase, i));
            && PathsOf(q, i + 1) == PathsOf(q, i) + {v}
            && WithPath(keys + Cover(PathsOf(q, i)), v) == keys + Cover(PathsOf(q, i + 1)) <= keys + Cover(PathsOf(q, q.count))
  {
    hide PathOf, Cover;
    CoverGrows(PathsOf(q, i), PathOf(PageAddr(q.guestBase, i)));
    CoverMonotone(q, i + 1, q.count);
  }

  lemma RootNeeded(q: Request)
    ensures if q.count == 0 then TablesFor(q) == {} else TablesFor(q) == Cover(PathsOf(q, q.count)) && Root in TablesFor(q)
  {
  }

  lemma WalkStarts(mem: Memory, tab: map<Node, nat>, root: nat)
    requires Tree(mem, tab, root)
    ensures Root in tab && tab[Root] == root
  {
  }

  lemma ProperSubsetIsSmaller<T>(x: set<T>, y: set<T>)
    requires x < y
    ensures |x| < |y|
  {
    assert y == x + (y - x);
  }

  /** How table counts before and after compare with what a request lacks. */
  lemma TablesNeeded(q: Request, keys: set<Node>)
    ensures |TablesFor(q) - keys| == |keys + TablesFor(q)| - |keys|
  {
    assert keys + TablesFor(q) == keys + (TablesFor(q) - keys);
  }

  /** The written pages hold every non-empty leaf, and explain every table while none is left over. */
  ghost predicate Booked(view: View, places: set<Node>, used: set<Path>, clean: bool, readable: bool)
  {
    && (places == {} ==> used == {})
    && (clean && places != {} ==> places == Cover(used))
    && (forall v <- view :: view[v] != EMPTY ==> v in used)
    && (forall v <- used :: v in view && (readable ==> view[v].present))
  }

  lemma BookPage(view: View, places: set<Node>, used: set<Path>, clean: bool, readable: bool, v: Path, w: Word, places': set<Node>)
    requires Booked(view, places, used, clean, readable) && Root in places
    requires places' == WithPath(places, v)
    ensures Booked(view[v := w], places', used + {v}, clean, readable && w.present)
  {
    CoverGrows(used, v);
  }

  lemma BookLoss(view: View, places: set<Node>, used: set<Path>, clean: bool, readable: bool, places': set<Node>)
    requires Booked(view, places, used, clean, readable) && Root in places'
    ensures Booked(view, places', used, false, readable)
  {}

  lemma BookNothing(mem: Memory)
    ensures ViewOf(mem, map[]) == ViewOf(map[], map[])
    ensures Booked(ViewOf(mem, map[]), {}, {}, true, true)
  {}

  lemma BookRoot(view: View, used: set<Path>, clean: bool, readable: bool)
    requires Booked(view, {}, used, clean, readable)
    ensures Booked(view, {Root}, used, clean, readable) && Booked(view, {}, used, false, readable)
  {
    assert Cover({}) == {Root};
  }

  // ------------------------------------------------------------------
  // Teardown: the tables below a table
  // ------------------------------------------------------------------

  /** Is `m` reached from `n` through one of its first `i` entries? */
  predicate Via(m: Node, n: Node, i: nat)
  {
    m.Under? && (if m.parent == n then m.index < i else Via(m.parent, n, i))
  }

  ghost function Below(tab: map<Node, nat>, n: Node, i: nat): set<Node>
  {
    set m | m in tab && Via(m, n, i)
  }

  ghost function Pages(tab: map<Node, nat>, places: set<Node>): set<nat>
  {
    set m | m in places && m in tab :: tab[m]
  }

  /** Memory still holds these tables as it did in `mem0`. */
  ghost predicate Intact(mem: Memory, mem0: Memory, tab: map<Node, nat>, places: set<Node>)
  {
    forall m <- places :: m in tab && tab[m] in mem && tab[m] in mem0 && mem[tab[m]] == mem0[tab[m]]
  }

  lemma {:induction false} ViaIsDeeper(m: Node, n: Node, i: nat)
    requires Via(m, n, i)
    ensures m.Depth() > n.Depth()
  {
    if m.parent != n { ViaIsDeeper(m.parent, n, i); }
  }

  /** Going through entry `i` is going to that child or below it, and through no earlier entry. */
  lemma {:induction false} ViaStep(mem: Memory, tab: map<Node, nat>, root: nat, m: Node, n: Node, i: nat)
    requires Tree(mem, tab, root) && m in tab
    ensures Via(m, n, i + 1) <==> Via(m, n, i) || m == Under(n, i) || Via(m, Under(n, i), ENTRIES)
    ensures m == Under(n, i) || Via(m, Under(n, i), ENTRIES) ==> !Via(m, n, i) && Under(n, i) in tab
    decreases m
  {
    var c := Under(n, i);
    if m.Under? {
      assert Linked(mem, tab, m);
      ViaStep(mem, tab, root, m.parent, n, i);
      if m.parent == n && Via(n, c, ENTRIES) { ViaIsDeeper(n, c, ENTRIES); }
    }
  }

  /** The tables behind one entry: the child, if there is one, and all below it. */
  ghost function Behind(tab: map<Node, nat>, c: Node): set<Node>
  {
    if c in tab then {c} + Below(tab, c, ENTRIES) else {}
  }

  lemma BelowSplits(mem: Memory, tab: map<Node, nat>, root: nat, n: Node, i: nat)
    requires Tree(mem, tab, root)
    ensures Below(tab, n, i + 1) == Below(tab, n, i) + Behind(tab, Under(n, i))
    ensures Below(tab, n, i) !! Behind(tab, Under(n, i))
  {
    hide Via, Tree;
    forall m | m in tab
      ensures Via(m, n, i + 1) <==> Via(m, n, i) || m == Under(n, i) || Via(m, Under(n, i), ENTRIES)
      ensures m == Under(n, i) || Via(m, Under(n, i), ENTRIES) ==> !Via(m, n, i) && Under(n, i) in tab
    {
      ViaStep(mem, tab, root, m, n, i);
    }
  }

  lemma NotBelowItself(tab: map<Node, nat>, n: Node, i: nat)
    ensures n !in Below(tab, n, i)
  {
    if Via(n, n, i) { ViaIsDeeper(n, n, i); }
  }

  lemma NoneThroughNoEntry(tab: map<Node, nat>, n: Node)
    ensures Below(tab, n, 0) == {}
  {
    forall m ensures !Via(m, n, 0) { NotVia0(m, n); }
  }

  lemma {:induction false} NotVia0(m: Node, n: Node)
    ensures !Via(m, n, 0)
  {
    if m.Under? { NotVia0(m.parent, n); }
  }

  lemma {:induction false} BelowGrows(tab: map<Node, nat>, n: Node, i: nat, j: nat)
    requires i <= j
    ensures Below(tab, n, i) <= Below(tab, n, j) && |Below(tab, n, i)| <= |Below(tab, n, j)|
  {
    forall m | Via(m, n, i) ensures Via(m, n, j) { ViaGrows(m, n, i, j); }
    var x, y := Below(tab, n, i), Below(tab, n, j);
    assert y == x + (y - x);
  }

  lemma {:induction false} ViaGrows(m: Node, n: Node, i: nat, j: nat)
    requires i <= j && Via(m, n, i)
    ensures Via(m, n, j)
  {
    if m.parent != n { ViaGrows(m.parent, n, i, j); }
  }

  /** Every table but the root is below the root. */
  lemma {:induction false} AllBelowRoot(mem: Memory, tab: map<Node, nat>, root: nat, m: Node)
    requires Tree(mem, tab, root) && m in tab
    ensures m == Root || Via(m, Root, ENTRIES)
  {
    if m.Under? {
      assert Linked(mem, tab, m);
      AllBelowRoot(mem, tab, root, m.parent);
    }
  }

  lemma NoneBelowLeafTable(mem: Memory, tab: map<Node, nat>, root: nat, n: Node, i: nat)
    requires Tree(mem, tab, root) && n.Depth() >= 3
    ensures Below(tab, n, i) == {}
  {
    forall m | m in tab && Via(m, n, i) ensures false { ViaIsDeeper(m, n, i); }
  }

  /** Disjoint places have disjoint pages. */
  lemma PagesSplit(mem: Memory, tab: map<Node, nat>, root: nat, x: set<Node>, y: set<Node>)
    requires Tree(mem, tab, root) && x <= tab.Keys && y <= tab.Keys && x !! y
    ensures Pages(tab, x + y) == Pages(tab, x) + Pages(tab, y) && Pages(tab, x) !! Pages(tab, y)
    ensures multiset(Pages(tab, x + y)) == multiset(Pages(tab, x)) + multiset(Pages(tab, y))
    ensures |x + y| == |x| + |y|
  {
    assert Pages(tab, x + y) == Pages(tab, x) + Pages(tab, y);
  }

  /** What is freed so far leaves the other tables in place. */
  lemma StillIntact(mem: Memory, mem0: Memory, tab: map<Node, nat>, root: nat, gone: set<Node>, places: set<Node>, kept: set<Node>)
    requires Tree(mem0, tab, root) && Intact(mem, mem0, tab, places) && gone <= tab.Keys
    requires kept <= places && kept !! gone
    ensures Intact(mem - Pages(tab, gone), mem0, tab, kept)
  {}

  /** What is left when the freeing loop reaches entry `i` of table `n`. */
  lemma LeftAtEntry(mem: Memory, mem0: Memory, tab: map<Node, nat>, root: nat, n: Node, i: nat)
    requires Tree(mem0, tab, root) && n in tab && n.Depth() < 3 && i < ENTRIES
    requires Intact(mem, mem0, tab, Behind(tab, n))
    ensures Intact(mem - Pages(tab, Below(tab, n, i)), mem0, tab, {n} + Behind(tab, Under(n, i)))
  {
    hide Tree, Via, Pages;
    BelowSplits(mem0, tab, root, n, i);
    BelowGrows(tab, n, i + 1, ENTRIES);
    NotBelowItself(tab, n, i);
    StillIntact(mem, mem0, tab, root, Below(tab, n, i), Behind(tab, n), {n} + Behind(tab, Under(n, i)));
  }

  /** Freeing what is behind entry `i` moves the loop's account to entry `i + 1`. */
  lemma CountAtEntry(mem: Memory, tab: map<Node, nat>, root: nat, n: Node, i: nat)
    requires Tree(mem, tab, root) && n in tab && i < ENTRIES
    ensures var gone, next := Below(tab, n, i), Behind(tab, Under(n, i));
            && |Below(tab, n, i + 1)| == |gone| + |next| < |Behind(tab, n)|
            && Pages(tab, Below(tab, n, i + 1)) == Pages(tab, gone) + Pages(tab, next)
            && multiset(Pages(tab, Below(tab, n, i + 1))) == multiset(Pages(tab, gone)) + multiset(Pages(tab, next))
  {
    hide Tree, Via, Pages;
    BelowSplits(mem, tab, root, n, i);
    BelowGrows(tab, n, i + 1, ENTRIES);
    NotBelowItself(tab, n, ENTRIES);
    PagesSplit(mem, tab, root, Below(tab, n, i), Behind(tab, Under(n, i)));
  }

  lemma MinusTwice(mem: Memory, x: set<nat>, y: set<nat>)
    ensures (mem - x) - y == mem - (x + y)
  {}

  /** The entry read by the freeing loop names the table behind it, or nothing is behind it. */
  lemma ReadEntry(mem: Memory, mem0: Memory, tab: map<Node, nat>, root: nat, n: Node, i: nat, next: set<Node>)
    requires Tree(mem0, tab, root) && n in tab && n.Depth() < 3 && i < ENTRIES
    requires Intact(mem, mem0, tab, {n} + next) && next == Behind(tab, Under(n, i))
    ensures tab[n] in mem && Intact(mem, mem0, tab, next)
    ensures var child := mem[tab[n]][i].frame;
            if child == 0 then next == {} && Pages(tab, next) == {}
            else Under(n, i) in tab && tab[Under(n, i)] == child
  {
    EntryMeansChild(mem0, tab, root, n, i);
  }

  lemma FreeStart(mem0: Memory, tab: map<Node, nat>, root: nat, n: Node)
    requires Tree(mem0, tab, root)
    ensures Below(tab, n, 0) == {} && Pages(tab, {}) == {}
    ensures n.Depth() >= 3 ==> Below(tab, n, ENTRIES) == {}
  {
    NoneThroughNoEntry(tab, n);
    if n.Depth() >= 3 { NoneBelowLeafTable(mem0, tab, root, n, ENTRIES); }
  }

  lemma FreeEnd(mem: Memory, mem0: Memory, tab: map<Node, nat>, root: nat, n: Node)
    requires Tree(mem0, tab, root) && n in tab && Intact(mem, mem0, tab, Behind(tab, n))
    ensures var left := mem - Pages(tab, Below(tab, n, ENTRIES));
            && tab[n] in left && 0 < tab[n] < FRAME_LIMIT
            && left - {tab[n]} == mem - Pages(tab, Behind(tab, n))
            && |Behind(tab, n)| == |Below(tab, n, ENTRIES)| + 1
            && Pages(tab, Behind(tab, n)) == Pages(tab, Below(tab, n, ENTRIES)) + {tab[n]}
            && multiset(Pages(tab, Behind(tab, n))) == multiset(Pages(tab, Below(tab, n, ENTRIES))) + multiset{tab[n]}
  {
    hide Tree, Via, Pages;
    OnePage(mem0, tab, root, n);
    var below := Below(tab, n, ENTRIES);
    NotBelowItself(tab, n, ENTRIES);
    PagesSplit(mem0, tab, root, below, {n});
    MinusTwice(mem, Pages(tab, below), {tab[n]});
    assert below + {n} == Behind(tab, n);
    StillIntact(mem, mem0, tab, root, below, Behind(tab, n), {n});
  }

  lemma OnePage(mem: Memory, tab: map<Node, nat>, root: nat, n: Node)
    requires Tree(mem, tab, root) && n in tab
    ensures Pages(tab, {n}) == {tab[n]} && 0 < tab[n] < FRAME_LIMIT
  {}

  lemma BehindRootIsAll(mem: Memory, tab: map<Node, nat>, root: nat)
    requires Tree(mem, tab, root)
    ensures Behind(tab, Root) == tab.Keys
  {
    forall m | m in tab ensures m == Root || Via(m, Root, ENTRIES) { AllBelowRoot(mem, tab, root, m); }
  }

  lemma BehindRoot(mem: Memory, tab: map<Node, nat>, root: nat)
    requires Tree(mem, tab, root)
    ensures Root in tab && tab[Root] == root
    ensures |Behind(tab, Root)| == |tab| && Pages(tab, Behind(tab, Root)) == tab.Values
    ensures Intact(mem, mem, tab, Behind(tab, Root))
    ensures mem - tab.Values == Foreign(mem, tab)
  {
    hide Behind, Linked, Closed;
    BehindRootIsAll(mem, tab, root);
    assert |tab| == |tab.Keys|;
  }

  lemma NothingForeign(mem: Memory)
    ensures Foreign(mem, map[]) == mem
  {}

  class Ept {
    var root: nat              // frame number of the root table, 0 when there is none
    var tables: nat            // table pages held
    ghost var tab: map<Node, nat>
    ghost var used: set<Path>   // guest pages written since the last teardown
    ghost var clean: bool      // no map has run out of pages since the last teardown
    ghost var readable: bool   // every map since the last teardown carried EPT_R

    ghost predicate Valid(a: Arena)
      reads this, a
    {
      && a.Valid()
      && tables == |tab|
      && (root == 0 ==> tab == map[])
      && (root != 0 ==> Root in tab && Tree(a.mem, tab, root))
      && Booked(ViewOf(a.mem, tab), tab.Keys, used, clean, readable)
    }

    /** The guest page to leaf entry mapping this EPT stands for. */
    ghost function View(a: Arena): View
      reads this, a
    {
      ViewOf(a.mem, tab)
    }

    constructor (a: Arena)
      requires a.Valid()
      ensures Valid(a) && tab == map[] && clean && readable && root == 0
    {
      root, tables, tab, used, clean, readable := 0, 0, map[], {}, true, true;
    }

    /** The hardware walk. It follows the tables only, and finds the view's leaf. */
    function Translate(a: Arena, gpa: nat): (r: Option<nat>)
      requires Valid(a)
      reads this, a
      ensures r == var w := View(a)[PathOf(gpa)]; if w.present then Some(w.frame * PAGE_SIZE) else None
    {
      if root == 0 then None else
      var v := PathOf(gpa);
      WalkReads(a.mem, tab, root, v, 0);
      var pml4e := a.mem[root][v.i0];
      if !pml4e.present then None else
      WalkReads(a.mem, tab, root, v, 1);
      var pdpte := a.mem[pml4e.frame][v.i1];
      if !pdpte.present then None else
      WalkReads(a.mem, tab, root, v, 2);
      var pde := a.mem[pdpte.frame][v.i2];
      if !pde.present then None else
      var pte := a.mem[pde.frame][v.i3];
      if !pte.present then None else Some(pte.frame * PAGE_SIZE)
    }

    /** `write_entry` of the table `page` just allocated over memory `mem0`. */
    method Link(a: Arena, ghost n: Node, table: nat, i: nat, page: nat, ghost mem0: Memory)
      requires a.Valid() && Tree(mem0, tab, root) && n in tab && n.Depth() < 3 && tab[n] == table && i < ENTRIES
      requires mem0[table][i] == EMPTY && page !in mem0 && 0 < page < FRAME_LIMIT && a.mem == mem0[page := ZeroTable()]
      modifies a, this`tab
      ensures a.Valid() && Tree(a.mem, tab, root) && a.freed == old(a.freed) && a.pool == old(a.pool)
      ensures ViewOf(a.mem, tab) == old(ViewOf(mem0, tab)) && Foreign(a.mem, tab) == old(Foreign(mem0, tab))
      ensures Under(n, i) !in old(tab) && tab == old(tab)[Under(n, i) := page]
    {
      a.mem := a.mem[table := a.mem[table][i := TableWord(page)]];
      tab := tab[Under(n, i) := page];
      LinkIsNew(mem0, old(tab), root, n, i);
      LinkKeepsTree(mem0, old(tab), root, n, i, page, a.mem, tab);
      LinkKeepsView(mem0, old(tab), root, n, i, page, a.mem, tab);
      LinkKeepsForeign(mem0, old(tab), root, n, i, page, a.mem, tab);
    }

    /** Follow entry `i` of `table`, linking a fresh zeroed table if there is none. */
    method Descend(a: Arena, ghost n: Node, table: nat, i: nat) returns (r: Result<nat>)
      requires root != 0 && a.Valid() && Tree(a.mem, tab, root) && tables == |tab|
      requires n in tab && n.Depth() < 3 && tab[n] == table && i < ENTRIES
      modifies a, this`tables, this`tab
      ensures a.Valid() && Tree(a.mem, tab, root) && tables == |tab|
      ensures ViewOf(a.mem, tab) == old(ViewOf(a.mem, tab))
      ensures Foreign(a.mem, tab) == old(Foreign(a.mem, tab)) && a.freed == old(a.freed)
      ensures r.Ok? ==> Under(n, i) in tab && tab[Under(n, i)] == r.value && tab.Keys == old(tab.Keys) + {Under(n, i)}
      ensures r.Err? ==> r.error == OutOfPages && tab == old(tab) && a.mem == old(a.mem) && a.pool == {} && Under(n, i) !in tab
      ensures |a.pool| + |tab| == old(|a.pool| + |tab|)
    {
      hide Tree, ViewOf, Foreign, a.Valid;
      EntryMeansChild(a.mem, tab, root, n, i);
      var entry := a.mem[table][i];
      if entry.present {
        return Ok(entry.frame);
      }
      ghost var mem0 := a.mem;
      var page := a.AllocPage();
      if page.None? {
        return Err(OutOfPages);
      }
      Link(a, n, table, i, page.value, mem0);
      tables := tables + 1;
      return Ok(page.value);
    }

    /** `write_entry` of a leaf. */
    method WriteLeaf(a: Arena, ghost v: Path, pt: nat, i: nat, w: Word)
      requires a.Valid() && Tree(a.mem, tab, root) && v.InRange()
      requires NodeFor(v, 3) in tab && tab[NodeFor(v, 3)] == pt && v.i3 == i
      modifies a
      ensures a.Valid() && Tree(a.mem, tab, root)
      ensures ViewOf(a.mem, tab) == old(ViewOf(a.mem, tab))[v := w]
      ensures Foreign(a.mem, tab) == old(Foreign(a.mem, tab)) && a.freed == old(a.freed) && a.pool == old(a.pool)
    {
      ghost var mem0 := a.mem;
      a.mem := a.mem[pt := a.mem[pt][i := w]];
      LeafStoreKeepsTree(mem0, tab, root, v, w, a.mem);
      LeafStoreUpdatesView(mem0, tab, root, v, w, a.mem);
    }

    /** Walk to the page table of `gpa`, building tables on the way, and write its leaf. */
    method WalkAndSet(a: Arena, gpa: nat, hpa: nat, flags: Word) returns (r: Result<()>)
      requires root != 0 && a.Valid() && Tree(a.mem, tab, root) && tables == |tab|
      modifies a, this`tables, this`tab
      ensures a.Valid() && Tree(a.mem, tab, root) && tables == |tab|
      ensures Foreign(a.mem, tab) == old(Foreign(a.mem, tab)) && a.freed == old(a.freed)
      ensures var v := PathOf(gpa);
              r.Ok? ==> && ViewOf(a.mem, tab) == old(ViewOf(a.mem, tab))[v := LeafWord(hpa, flags)]
                        && tab.Keys == WithPath(old(tab.Keys), v)
      ensures r.Err? ==> r.error == OutOfPages && ViewOf(a.mem, tab) == old(ViewOf(a.mem, tab))
      ensures r.Err? ==> a.pool == {} && tab.Keys < WithPath(old(tab.Keys), PathOf(gpa))
      ensures |a.pool| + |tab| == old(|a.pool| + |tab|)
      ensures Root in tab
    {
      hide Tree, ViewOf, Foreign, PathOf, LeafWord, a.Valid;
      WalkStarts(a.mem, tab, root);
      var v := PathOf(gpa);
      var pdpt := Descend(a, NodeFor(v, 0), root, v.i0);
      if pdpt.Err? { return Err(pdpt.error); }
      var pd := Descend(a, NodeFor(v, 1), pdpt.value, v.i1);
      if pd.Err? { return Err(pd.error); }
      var pt := Descend(a, NodeFor(v, 2), pd.value, v.i2);
      if pt.Err? { return Err(pt.error); }
      WriteLeaf(a, v, pt.value, v.i3, LeafWord(hpa, flags));
      return Ok(());
    }

    /** Does any page of the request already translate? */
    method AnyMapped(a: Arena, guestBase: nat, count: nat) returns (hit: bool)
      requires Valid(a)
      ensures hit <==> exists i: nat | i < count :: Present(View(a), PageAddr(guestBase, i))
    {
      hide Tree, Booked;
      hit := false;
      for i := 0 to count
        invariant forall j: nat | j < i :: !Present(View(a), PageAddr(guestBase, j))
      {
        if Translate(a, PageAddr(guestBase, i)).Some? {
          assert Present(View(a), PageAddr(guestBase, i));
          return true;
        }
      }
    }

    /** The checks made before anything is touched. */
    method Refuse(a: Arena, q: Request) returns (e: Option<EptError>)
      requires Valid(a)
      ensures e == Refusal(View(a), q)
    {
      hide Tree, Booked, ViewOf, a.Valid;
      if q.count * PAGE_SIZE >= U64 { return Some(Overflow); }
      if q.guestBase + q.count * PAGE_SIZE >= U64 { return Some(Overflow); }
      if q.guestBase % PAGE_SIZE != 0 || q.hostBase % PAGE_SIZE != 0 { return Some(Misaligned); }
      if q.count == 0 { return None; }
      if !Contains(q.grant, q.guestBase, q.count) { return Some(OutsideGrant); }
      var hit := AnyMapped(a, q.guestBase, q.count);
      return if hit then Some(AlreadyMapped) else None;
    }

    /**
      Map a contiguous range. A refused request changes nothing at all; otherwise
      exactly the first `done` pages of the range have been written, all of them
      unless the allocator ran dry. An accepted request succeeds exactly when the
      allocator holds a page for every table it lacks. Pages of other owners are
      never touched.
     */
    method Map(a: Arena, q: Request) returns (r: Result<()>, ghost done: nat)
      requires Valid(a)
      modifies a, this
      ensures Valid(a)
      ensures Foreign(a.mem, tab) == old(Foreign(a.mem, tab)) && a.freed == old(a.freed)
      ensures old(Refusal(View(a), q)).Some? ==>
                && r == Err(old(Refusal(View(a), q)).value)
                && a.mem == old(a.mem) && a.pool == old(a.pool) && root == old(root) && tables == old(tables)
      ensures old(Refusal(View(a), q)).None? ==> r.Ok? || r.error == OutOfPages
      ensures done <= q.count && View(a) == Written(old(View(a)), q, done)
      ensures r.Ok? ==> done == q.count && clean == old(clean)
      ensures r.Err? && r.error != OutOfPages ==> done == 0 && clean == old(clean)
      ensures r == Err(OutOfPages) ==> done < q.count
      ensures done > 0 ==> Contains(q.grant, q.guestBase, q.count) && q.guestBase % PAGE_SIZE == 0
      ensures readable == (old(readable) && (done > 0 ==> q.flags.present))
      ensures used == old(used) + PathsOf(q, done)
      ensures old(Refusal(View(a), q)).None? ==> (r.Ok? <==> |TablesFor(q) - old(tab.Keys)| <= |old(a.pool)|)
      ensures r == Err(OutOfPages) ==> a.pool == {}
      ensures |a.pool| + |tab| == old(|a.pool| + |tab|)
    {
      hide Tree, Booked, ViewOf, Foreign, PathOf, LeafWord, NodeFor, Cover, PathsOf, TablesFor, Contains, Overlaps, Written, Valid, a.Valid;
      NoPaths(q);
      NothingWritten(View(a), q);
      done := 0;
      var refusal := Refuse(a, q);
      if refusal.Some? { return Err(refusal.value), 0; }
      RootNeeded(q);
      if q.count == 0 { return Ok(()), 0; }
      r, done := MapAccepted(a, q);
    }

    /** An accepted request: the root if there is none, then the pages. */
    method MapAccepted(a: Arena, q: Request) returns (r: Result<()>, ghost done: nat)
      requires Valid(a) && q.count > 0
      modifies a, this
      ensures Valid(a)
      ensures Foreign(a.mem, tab) == old(Foreign(a.mem, tab)) && a.freed == old(a.freed)
      ensures done <= q.count && View(a) == Written(old(View(a)), q, done)
      ensures r.Ok? ==> done == q.count && clean == old(clean)
      ensures r.Err? ==> r.error == OutOfPages && done < q.count && a.pool == {}
      ensures readable == (old(readable) && (done > 0 ==> q.flags.present))
      ensures used == old(used) + PathsOf(q, done)
      ensures r.Ok? <==> |TablesFor(q) - old(tab.Keys)| <= |old(a.pool)|
      ensures |a.pool| + |tab| == old(|a.pool| + |tab|)
    {
      hide Tree, Booked, ViewOf, Foreign, PathOf, LeafWord, NodeFor, Cover, PathsOf, TablesFor, a.Valid;
      NoPaths(q);
      TablesNeeded(q, tab.Keys);
      RootNeeded(q);
      done := 0;
      if root == 0 {
        var got := CreateRoot(a);
        if !got {
          ProperSubsetIsSmaller({}, TablesFor(q));
          return Err(OutOfPages), 0;
        }
      }
      ghost var keys := tab.Keys;
      r, done := FillPages(a, q);
      assert |tab| == |tab.Keys| && old(|tab|) == |old(tab.Keys)| && keys + TablesFor(q) == old(tab.Keys) + TablesFor(q);
      if r.Err? { ProperSubsetIsSmaller(tab.Keys, keys + TablesFor(q)); }
    }

    /** Write the pages of an accepted request one by one until the allocator runs dry. */
    method FillPages(a: Arena, q: Request) returns (r: Result<()>, ghost done: nat)
      requires Valid(a) && root != 0
      modifies a, this`tables, this`tab, this`used, this`clean, this`readable
      ensures Valid(a)
      ensures Foreign(a.mem, tab) == old(Foreign(a.mem, tab)) && a.freed == old(a.freed)
      ensures done <= q.count && View(a) == Written(old(View(a)), q, done)
      ensures r.Ok? ==> done == q.count && clean == old(clean)
      ensures r.Err? ==> r.error == OutOfPages && done < q.count
      ensures readable == (old(readable) && (done > 0 ==> q.flags.present))
      ensures used == old(used) + PathsOf(q, done)
      ensures r.Ok? ==> tab.Keys == old(tab.Keys) + Cover(PathsOf(q, q.count))
      ensures r.Err? ==> a.pool == {} && tab.Keys < old(tab.Keys) + Cover(PathsOf(q, q.count))
      ensures |a.pool| + |tab| == old(|a.pool| + |tab|)
    {
      hide Tree, Booked, ViewOf, Foreign, PathOf, LeafWord, Cover, WithPath, PathsOf, a.Valid;
      NoPaths(q);
      done := 0;
      for i := 0 to q.count
        invariant root != 0 && Valid(a) && done == i
        invariant Foreign(a.mem, tab) == old(Foreign(a.mem, tab)) && a.freed == old(a.freed)
        invariant View(a) == Written(old(View(a)), q, i)
        invariant clean == old(clean)
        invariant readable == (old(readable) && (i > 0 ==> q.flags.present))
        invariant used == old(used) + PathsOf(q, i) && tab.Keys == old(tab.Keys) + Cover(PathsOf(q, i))
        invariant |a.pool| + |tab| == old(|a.pool| + |tab|)
      {
        NextPath(q, i, old(tab.Keys));
        r := MapPage(a, PageAddr(q.guestBase, i), PageAddr(q.hostBase, i), q.flags);
        if r.Err? { return; }
        done := i + 1;
      }
      return Ok(()), q.count;
    }

    /** The first table of an EPT. */
    method CreateRoot(a: Arena) returns (ok: bool)
      requires Valid(a) && root == 0
      modifies a, this
      ensures Valid(a) && ok == (root != 0) && readable == old(readable)
      ensures View(a) == old(View(a)) && Foreign(a.mem, tab) == old(Foreign(a.mem, tab)) && a.freed == old(a.freed)
      ensures ok ==> clean == old(clean)
      ensures used == old(used) && tab.Keys == (if ok then {Root} else {})
      ensures |a.pool| + |tab| == old(|a.pool|) && (!ok ==> a.pool == {})
    {
      hide Tree, Booked, ViewOf, Foreign;
      ghost var mem0 := a.mem;
      BookRoot(View(a), used, clean, readable);
      var page := a.AllocPage();
      if page.None? {
        clean := false;
        return false;
      }
      RootIsTree(mem0, page.value);
      root, tables, tab := page.value, 1, map[Root := page.value];
      assert tab.Keys == {Root};
      return true;
    }

    /** One page of a request, with the bookkeeping of what has been written. */
    method MapPage(a: Arena, gpa: nat, hpa: nat, flags: Word) returns (r: Result<()>)
      requires Valid(a) && root != 0
      modifies a, this`tables, this`tab, this`used, this`clean, this`readable
      ensures Valid(a)
      ensures Foreign(a.mem, tab) == old(Foreign(a.mem, tab)) && a.freed == old(a.freed)
      ensures r.Ok? ==> View(a) == old(View(a))[PathOf(gpa) := LeafWord(hpa, flags)]
                        && clean == old(clean) && readable == (old(readable) && flags.present)
                        && used == old(used) + {PathOf(gpa)} && tab.Keys == WithPath(old(tab.Keys), PathOf(gpa))
      ensures r.Err? ==> r.error == OutOfPages && View(a) == old(View(a)) && readable == old(readable) && used == old(used)
      ensures r.Err? ==> a.pool == {} && tab.Keys < WithPath(old(tab.Keys), PathOf(gpa))
      ensures |a.pool| + |tab| == old(|a.pool| + |tab|) && Root in tab
    {
      hide Tree, Booked, ViewOf, Foreign, PathOf, LeafWord, WithPath, a.Valid;
      ghost var view, places, v, w := ViewOf(a.mem, tab), tab.Keys, PathOf(gpa), LeafWord(hpa, flags);
      r := WalkAndSet(a, gpa, hpa, flags);
      if r.Err? {
        BookLoss(view, places, used, clean, readable, tab.Keys);
        clean := false;
      } else {
        BookPage(view, places, used, clean, readable, v, w, tab.Keys);
        used, readable := used + {v}, readable && w.present;
      }
      assert Booked(ViewOf(a.mem, tab), tab.Keys, used, clean, readable);
    }

    /**
      Free the tables linked from table `n`, each after those below it, then `n`
      itself. Memory not yet freed still reads as it did in `mem0`.
     */
    method FreeTable(a: Arena, depth: nat, page: nat, ghost n: Node, ghost mem0: Memory) returns (ghost log: seq<nat>)
      requires a.Valid() && Tree(mem0, tab, root)
      requires n in tab && tab[n] == page && n.Depth() == depth <= 3
      requires Intact(a.mem, mem0, tab, Behind(tab, n)) && tables >= |Behind(tab, n)|
      modifies a, this`tables
      ensures a.Valid()
      ensures a.mem == old(a.mem) - Pages(tab, Behind(tab, n)) && a.pool == old(a.pool) + Pages(tab, Behind(tab, n))
      ensures tables == old(tables) - |Behind(tab, n)|
      ensures a.freed == old(a.freed) + log && multiset(log) == multiset(Pages(tab, Behind(tab, n)))
      decreases 3 - depth, 1
    {
      hide Tree, Pages, Below, Behind, Intact, a.Valid;
      FreeStart(mem0, tab, root, n);
      log := [];
      if depth < 3 { log := FreeBelow(a, depth, page, n, mem0); }
      ghost var below := Pages(tab, Below(tab, n, ENTRIES));
      assert a.mem == old(a.mem) - below && a.pool == old(a.pool) + below && multiset(log) == multiset(below);
      FreeEnd(old(a.mem), mem0, tab, root, n);
      var _ := a.FreePage(page);
      log := log + [page];
      tables := tables - 1;
    }

    /** The loop over a table's entries. */
    method FreeBelow(a: Arena, depth: nat, page: nat, ghost n: Node, ghost mem0: Memory) returns (ghost log: seq<nat>)
      requires a.Valid() && Tree(mem0, tab, root)
      requires n in tab && tab[n] == page && n.Depth() == depth < 3
      requires Intact(a.mem, mem0, tab, Behind(tab, n)) && tables >= |Behind(tab, n)|
      modifies a, this`tables
      ensures a.Valid()
      ensures a.mem == old(a.mem) - Pages(tab, Below(tab, n, ENTRIES)) && a.pool == old(a.pool) + Pages(tab, Below(tab, n, ENTRIES))
      ensures tables == old(tables) - |Below(tab, n, ENTRIES)|
      ensures a.freed == old(a.freed) + log && multiset(log) == multiset(Pages(tab, Below(tab, n, ENTRIES)))
      decreases 3 - depth, 0, 1
    {
      hide Tree, Pages, Below, Behind, Intact, a.Valid;
      FreeStart(mem0, tab, root, n);
      log := [];
      for i := 0 to ENTRIES
        invariant a.Valid()
        invariant a.mem == old(a.mem) - Pages(tab, Below(tab, n, i)) && a.pool == old(a.pool) + Pages(tab, Below(tab, n, i))
        invariant tables == old(tables) - |Below(tab, n, i)|
        invariant a.freed == old(a.freed) + log && multiset(log) == multiset(Pages(tab, Below(tab, n, i)))
      {
        LeftAtEntry(old(a.mem), mem0, tab, root, n, i);
        CountAtEntry(mem0, tab, root, n, i);
        MinusTwice(old(a.mem), Pages(tab, Below(tab, n, i)), Pages(tab, Behind(tab, Under(n, i))));
        ghost var log' := FreeEntry(a, depth, page, i, n, mem0);
        log := log + log';
      }
    }

    /** One entry: the table it names and all behind that, or nothing. */
    method FreeEntry(a: Arena, depth: nat, page: nat, i: nat, ghost n: Node, ghost mem0: Memory) returns (ghost log: seq<nat>)
      requires a.Valid() && Tree(mem0, tab, root) && i < ENTRIES
      requires n in tab && tab[n] == page && n.Depth() == depth < 3
      requires Intact(a.mem, mem0, tab, {n} + Behind(tab, Under(n, i))) && tables >= |Behind(tab, Under(n, i))|
      modifies a, this`tables
      ensures a.Valid()
      ensures a.mem == old(a.mem) - Pages(tab, Behind(tab, Under(n, i))) && a.pool == old(a.pool) + Pages(tab, Behind(tab, Under(n, i)))
      ensures tables == old(tables) - |Behind(tab, Under(n, i))|
      ensures a.freed == old(a.freed) + log && multiset(log) == multiset(Pages(tab, Behind(tab, Under(n, i))))
      decreases 3 - depth, 0, 0
    {
      hide Tree, Pages, Below, Behind, Intact, a.Valid;
      ReadEntry(a.mem, mem0, tab, root, n, i, Behind(tab, Under(n, i)));
      log := [];
      var child := a.mem[page][i].frame;
      if child != 0 { log := FreeTable(a, depth + 1, child, Under(n, i), mem0); }
    }

    /** Return every table page to the allocator, each exactly once, and nothing else. */
    method UnmapAll(a: Arena)
      requires Valid(a)
      modifies a, this
      ensures Valid(a) && root == 0 && tables == 0 && clean && readable
      ensures a.mem == old(Foreign(a.mem, tab)) && Foreign(a.mem, tab) == a.mem && a.pool == old(a.pool) + old(tab.Values)
      ensures View(a) == ViewOf(map[], map[])
      ensures old(a.freed) <= a.freed && multiset(a.freed[|old(a.freed)|..]) == multiset(old(tab.Values))
    {
      hide Tree, Pages, Below, Behind, Intact, Foreign, Booked;
      if root != 0 {
        BehindRoot(a.mem, tab, root);
        ghost var log := FreeTable(a, 0, root, Root, a.mem);
        assert a.freed[|old(a.freed)|..] == log;
        root := 0;
      } else {
        NothingForeign(a.mem);
      }
      NothingForeign(a.mem);
      BookNothing(a.mem);
      tab, used, clean, readable := map[], {}, true, true;
    }
  }
}
