/**
  The text editor's buffer: shifting inserts and deletes, line movement, and the
  wrapping of the text into screen rows.
 */
module Editor {
  import opened Common

  const NEWLINE: byte := 10
  const BUF_MAX := 512

  // ------------------------------------------------------------------
  // Lines
  // ------------------------------------------------------------------

  predicate OneLine(t: seq<byte>, a: nat, b: nat)
    requires b <= |t|
  {
    forall k | a <= k < b :: t[k] != NEWLINE
  }

  /** Start of the line holding `p`. */
  function LineStart(t: seq<byte>, p: nat): (s: nat)
    requires p <= |t|
    ensures s <= p && OneLine(t, s, p) && (s > 0 ==> t[s - 1] == NEWLINE)
  {
    if p > 0 && t[p - 1] != NEWLINE then LineStart(t, p - 1) else p
  }

  /** Its end: the next newline, or the end of the text. */
  function LineEnd(t: seq<byte>, p: nat): (e: nat)
    requires p <= |t|
    ensures p <= e <= |t| && OneLine(t, p, e) && (e < |t| ==> t[e] == NEWLINE)
    decreases |t| - p
  {
    if p < |t| && t[p] != NEWLINE then LineEnd(t, p + 1) else p
  }

  lemma LineStartIs(t: seq<byte>, p: nat, s: nat)
    requires s <= p <= |t| && OneLine(t, s, p) && (s > 0 ==> t[s - 1] == NEWLINE)
    ensures LineStart(t, p) == s
  {
    hide LineStart;
    var r := LineStart(t, p);
    assert !(r < s);
  }

  lemma LineEndIs(t: seq<byte>, p: nat, e: nat)
    requires p <= e <= |t| && OneLine(t, p, e) && (e < |t| ==> t[e] == NEWLINE)
    ensures LineEnd(t, p) == e
  {
    hide LineEnd;
    var r := LineEnd(t, p);
    assert !(r < e);
  }

  /** Where the cursor goes one line up: the same column, or the end of a shorter line. */
  function Up(t: seq<byte>, c: nat): (r: Option<nat>)
    requires c <= |t|
    ensures r.Some? ==> r.value < c
  {
    var s := LineStart(t, c);
    if s == 0 then None
    else
      var prev := LineStart(t, s - 1);
      Some(prev + Min(c - s, s - 1 - prev))
  }

  function Down(t: seq<byte>, c: nat): (r: Option<nat>)
    requires c <= |t|
    ensures r.Some? ==> c < r.value <= |t|
  {
    var s, e := LineStart(t, c), LineEnd(t, c);
    if e >= |t| then None
    else
      var next := e + 1;
      Some(next + Min(c - s, LineEnd(t, next) - next))
  }

  /** Up then down comes back exactly when the line above is wide enough. */
  lemma UpThenDown(t: seq<byte>, c: nat)
    requires c <= |t| && Up(t, c).Some?
    ensures var s := LineStart(t, c); var above := s - 1 - LineStart(t, s - 1);
            Down(t, Up(t, c).value) == Some(s + Min(c - s, above))
    ensures Down(t, Up(t, c).value) == Some(c) <==> c - LineStart(t, c) <= LineStart(t, c) - 1 - LineStart(t, LineStart(t, c) - 1)
  {
    hide LineStart, LineEnd;
    var s := LineStart(t, c);
    var prev := LineStart(t, s - 1);
    var u := Up(t, c).value;
    LineStartIs(t, u, prev);
    LineEndIs(t, u, s - 1);
    LineEndIs(t, s, LineEnd(t, c));
  }

  /** Down then up likewise. */
  lemma DownThenUp(t: seq<byte>, c: nat)
    requires c <= |t| && Down(t, c).Some?
    ensures var s, next := LineStart(t, c), LineEnd(t, c) + 1; var below := LineEnd(t, next) - next;
            Up(t, Down(t, c).value) == Some(s + Min(c - s, below))
  {
    hide LineStart, LineEnd;
    var s, e := LineStart(t, c), LineEnd(t, c);
    LineStartIs(t, Down(t, c).value, e + 1);
    LineStartIs(t, e, s);
  }

  // ------------------------------------------------------------------
  // Screen rows
  // ------------------------------------------------------------------

  datatype Row = Row(start: nat, end: nat)

  function LineRows(start: nat, end: nat, width: nat): (r: seq<Row>)
    requires start <= end && width > 0
    ensures |r| > 0
    decreases end - start
  {
    if end - start <= width then [Row(start, end)] else [Row(start, start + width)] + LineRows(start + width, end, width)
  }

  function Rows(t: seq<byte>, start: nat, width: nat): (r: seq<Row>)
    requires start <= |t| && width > 0
    ensures |r| > 0
    decreases |t| - start
  {
    var end := LineEnd(t, start);
    LineRows(start, end, width) + (if end < |t| then Rows(t, end + 1, width) else [])
  }

  /** One row: a stretch of one line, no wider than the screen. */
  predicate IsRow(t: seq<byte>, width: nat, r: Row)
  {
    r.start <= r.end <= |t| && r.end - r.start <= width && OneLine(t, r.start, r.end)
  }

  /** `b` continues the full row `a` within a line. */
  predicate Wraps(width: nat, a: Row, b: Row)
  {
    b.start == a.end && a.end - a.start == width && b.start < b.end
  }

  predicate Follows(t: seq<byte>, width: nat, a: Row, b: Row)
  {
    Wraps(width, a, b) || (a.end < |t| && t[a.end] == NEWLINE && b.start == a.end + 1)
  }

  /** The rows cover the text from `start` on: nothing missing, nothing twice, newlines only between rows. */
  predicate Tiles(t: seq<byte>, start: nat, width: nat, rows: seq<Row>)
  {
    && |rows| > 0 && rows[0].start == start && rows[|rows| - 1].end == |t|
    && (forall i | 0 <= i < |rows| :: IsRow(t, width, rows[i]))
    && (forall i | 0 < i < |rows| :: Follows(t, width, rows[i - 1], rows[i]))
  }

  lemma {:induction false} LineTiles(t: seq<byte>, start: nat, end: nat, width: nat)
    requires start <= end <= |t| && width > 0 && OneLine(t, start, end)
    ensures var r := LineRows(start, end, width);
            && r[0].start == start && r[|r| - 1].end == end
            && (end > start ==> r[0].end > start)
            && (forall i | 0 <= i < |r| :: IsRow(t, width, r[i]))
            && (forall i | 0 < i < |r| :: Follows(t, width, r[i - 1], r[i]))
    decreases end - start
  {
    if end - start > width {
      LineTiles(t, start + width, end, width);
      var first, rest := Row(start, start + width), LineRows(start + width, end, width);
      assert LineRows(start, end, width) == [first] + rest;
      assert Follows(t, width, first, rest[0]);
      assert IsRow(t, width, first);
    }
  }

  lemma TilesJoin(t: seq<byte>, width: nat, a: seq<Row>, b: seq<Row>)
    requires |a| > 0 && |b| > 0 && Follows(t, width, a[|a| - 1], b[0])
    requires forall i | 0 < i < |a| :: Follows(t, width, a[i - 1], a[i])
    requires forall i | 0 < i < |b| :: Follows(t, width, b[i - 1], b[i])
    ensures forall i | 0 < i < |a + b| :: Follows(t, width, (a + b)[i - 1], (a + b)[i])
  {
    hide Follows;
    forall i | 0 < i < |a + b| ensures Follows(t, width, (a + b)[i - 1], (a + b)[i]) {
      assert i > |a| ==> Follows(t, width, b[i - |a| - 1], b[i - |a|]);
    }
  }

  lemma RowsStep(t: seq<byte>, start: nat, width: nat)
    requires start <= |t| && width > 0
    ensures var end := LineEnd(t, start); var a := LineRows(start, end, width);
            Rows(t, start, width) == if end < |t| then a + Rows(t, end + 1, width) else a
  {
    hide LineEnd, LineRows, OneLine;
  }

  /** The rows of a text tile it. */
  lemma {:induction false} RowsTile(t: seq<byte>, start: nat, width: nat)
    requires start <= |t| && width > 0
    ensures Tiles(t, start, width, Rows(t, start, width))
    decreases |t| - start
  {
    hide Rows, LineRows, LineEnd, IsRow, OneLine;
    var end := LineEnd(t, start);
    LineTiles(t, start, end, width);
    RowsStep(t, start, width);
    if end < |t| {
      RowsTile(t, end + 1, width);
      TilesJoin(t, width, LineRows(start, end, width), Rows(t, end + 1, width));
    }
  }

  /** Two tilings of one text begin with the same rows, and end together. */
  lemma {:induction false} TilingAgrees(t: seq<byte>, width: nat, a: seq<Row>, b: seq<Row>, i: nat)
    requires Tiles(t, 0, width, a) && Tiles(t, 0, width, b) && width > 0 && i < |a|
    ensures i < |b| && a[i] == b[i] && (i == |a| - 1 <==> i == |b| - 1)
  {
    if i > 0 {
      TilingAgrees(t, width, a, b, i - 1);
      SameStart(t, width, a[i - 1], a[i], b[i]);
    }
    SameEnd(t, width, a, b, i);
  }

  lemma SameStart(t: seq<byte>, width: nat, r: Row, a: Row, b: Row)
    requires Follows(t, width, r, a) && Follows(t, width, r, b) && IsRow(t, width, a) && IsRow(t, width, b)
    ensures a.start == b.start
  {
    assert Wraps(width, r, a) ==> t[a.start] != NEWLINE;
    assert Wraps(width, r, b) ==> t[b.start] != NEWLINE;
  }

  /** No row of a tiling stops short of the screen's edge inside a line. */
  lemma RowMaximal(t: seq<byte>, width: nat, a: seq<Row>, i: nat, e: nat)
    requires Tiles(t, 0, width, a) && i < |a| && a[i].end < e <= |t| && OneLine(t, a[i].start, e)
    ensures a[i].end - a[i].start == width && i < |a| - 1 && Wraps(width, a[i], a[i + 1])
  {
    assert i < |a| - 1 ==> Follows(t, width, a[i], a[i + 1]);
    assert IsRow(t, width, a[i]);
  }

  lemma SameEnd(t: seq<byte>, width: nat, a: seq<Row>, b: seq<Row>, i: nat)
    requires Tiles(t, 0, width, a) && Tiles(t, 0, width, b) && i < |a| && i < |b| && a[i].start == b[i].start
    ensures a[i] == b[i] && (i == |a| - 1 <==> i == |b| - 1)
  {
    assert IsRow(t, width, a[i]) && IsRow(t, width, b[i]);
    if a[i].end < b[i].end { RowMaximal(t, width, a, i, b[i].end); }
    if b[i].end < a[i].end { RowMaximal(t, width, b, i, a[i].end); }
    NotLast(t, width, a, i);
    NotLast(t, width, b, i);
  }

  lemma NotLast(t: seq<byte>, width: nat, a: seq<Row>, i: nat)
    requires Tiles(t, 0, width, a) && i < |a|
    ensures i == |a| - 1 <==> a[i].end == |t|
  {
    if i < |a| - 1 {
      assert Follows(t, width, a[i], a[i + 1]);
      assert IsRow(t, width, a[i + 1]);
    }
  }

  /** There is only one way to tile a text. */
  lemma TilingUnique(t: seq<byte>, width: nat, a: seq<Row>, b: seq<Row>)
    requires Tiles(t, 0, width, a) && Tiles(t, 0, width, b) && width > 0
    ensures a == b
  {
    TilingAgrees(t, width, a, b, |a| - 1);
    forall i | 0 <= i < |a| ensures i < |b| && a[i] == b[i] { TilingAgrees(t, width, a, b, i); }
  }

  predicate Shows(r: Row, c: nat) { r.start <= c <= r.end }

  lemma {:induction false} Ordered(t: seq<byte>, width: nat, rows: seq<Row>, i: nat, j: nat)
    requires Tiles(t, 0, width, rows) && i < j < |rows|
    ensures rows[i].end <= rows[j].start && (j > i + 1 ==> rows[i].end < rows[j].start)
    decreases j
  {
    assert Follows(t, width, rows[j - 1], rows[j]);
    if j > i + 1 {
      Ordered(t, width, rows, i, j - 1);
      assert IsRow(t, width, rows[j - 1]);
      assert Follows(t, width, rows[j - 2], rows[j - 1]);
    }
  }

  lemma {:induction false} SomeRowShows(t: seq<byte>, width: nat, rows: seq<Row>, c: nat, k: nat) returns (i: nat)
    requires Tiles(t, 0, width, rows) && k < |rows| && rows[k].start <= c <= |t|
    ensures i < |rows| && Shows(rows[i], c)
    decreases |rows| - k
  {
    if c <= rows[k].end {
      i := k;
    } else {
      assert Follows(t, width, rows[k], rows[k + 1]);
      i := SomeRowShows(t, width, rows, c, k + 1);
    }
  }

  /** The cursor appears in one row; in a second exactly when it sits where the text wraps. */
  lemma CursorRows(t: seq<byte>, width: nat, rows: seq<Row>, c: nat) returns (i: nat)
    requires Tiles(t, 0, width, rows) && c <= |t|
    ensures i < |rows| && Shows(rows[i], c)
    ensures forall j: nat | j < |rows| :: Shows(rows[j], c) <==> j == i || (j == i + 1 && rows[i].end == c && Wraps(width, rows[i], rows[j]))
  {
    i := SomeRowShows(t, width, rows, c, 0);
    if i > 0 && Shows(rows[i - 1], c) { i := i - 1; }
    forall j: nat | j < |rows|
      ensures Shows(rows[j], c) <==> j == i || (j == i + 1 && rows[i].end == c && Wraps(width, rows[i], rows[j]))
    {
      if j < i { Ordered(t, width, rows, j, i); }
      if i < j { Ordered(t, width, rows, i, j); }
      if j == i + 1 { assert Follows(t, width, rows[i], rows[j]); assert IsRow(t, width, rows[j]); }
    }
  }

  // ------------------------------------------------------------------
  // The row a window paints
  // ------------------------------------------------------------------

  function DivCeil(a: nat, b: nat): nat
    requires b > 0
  {
    a / b + if a % b > 0 then 1 else 0
  }

  lemma DivIs(a: nat, b: nat, q: nat, r: nat)
    requires b > 0 && a == q * b + r && r < b
    ensures a / b == q && a % b == r
  {
    var p, s := a / b, a % b;
    assert p * b + s == q * b + r;
    DigitUnique(b, p, s, q, r);
  }

  lemma DivCeilStep(a: nat, b: nat)
    requires 0 < b < a
    ensures DivCeil(a, b) == 1 + DivCeil(a - b, b)
  {
    var q, r := (a - b) / b, (a - b) % b;
    assert a == (q + 1) * b + r;
    DivIs(a, b, q + 1, r);
  }

  lemma DivCeilOne(a: nat, b: nat)
    requires 0 < a <= b
    ensures DivCeil(a, b) == 1
  {
    if a == b { DivIs(a, b, 1, 0); } else { DivIs(a, b, 0, a); }
  }

  function RowStart(start: nat, k: nat, width: nat): nat { start + k * width }

  /** How many rows a line takes, and which bytes each holds. */
  lemma {:induction false} LineRowAt(start: nat, end: nat, width: nat, k: nat)
    requires start <= end && width > 0
    ensures var r := LineRows(start, end, width); var s := RowStart(start, k, width);
            && |r| == (if start == end then 1 else DivCeil(end - start, width))
            && (k < |r| ==> r[k] == Row(s, Min(s + width, end)))
    decreases end - start
  {
    assert RowStart(start, 0, width) == start;
    if end - start > width {
      DivCeilStep(end - start, width);
      if k > 0 { RowStartStep(start, k, width); }
      hide DivCeil, RowStart;
      LineRowAt(start + width, end, width, if k > 0 then k - 1 else 0);
    } else if end > start {
      DivCeilOne(end - start, width);
    }
  }

  lemma RowStartStep(start: nat, k: nat, width: nat)
    requires k > 0
    ensures RowStart(start, k, width) == RowStart(start + width, k - 1, width)
  {
    assert k * width == width + (k - 1) * width;
  }

  /** What is painted for a row: sums of machine words wrap. */
  function Painted(r: Row, width: nat, cursor: nat): (nat, nat, Option<nat>)
    requires 0 < width
  {
    var end := if r.start + width < U64 then r.end else r.start + width - U64;
    (r.start, end, if r.start <= cursor <= end then Some(Min(cursor - r.start, width - 1)) else None)
  }

  /** A painted row is the row exactly when its start plus the width is a machine word. */
  lemma PaintedIffNoWrap(t: seq<byte>, r: Row, width: nat, cursor: nat)
    requires 0 < width < U64 && |t| <= BUF_MAX && IsRow(t, width, r)
    ensures Painted(r, width, cursor).1 == r.end <==> r.start + width < U64
    ensures Painted(r, width, cursor).0 == r.start && (Painted(r, width, cursor).1 < r.start <==> r.start + width >= U64)
  {
  }

  /** The widest width loses the second line of a two-line text. */
  lemma WidestWidthLosesLine()
    ensures var t := [NEWLINE, 97]; var rows := Rows(t, 0, U64 - 1);
            rows == [Row(0, 0), Row(1, 2)] && Painted(rows[1], U64 - 1, 0) == (1, 0, None)
  {
    var t := [NEWLINE, 97];
    LineEndIs(t, 1, 2);
    LineEndIs(t, 0, 0);
    assert Rows(t, 1, U64 - 1) == [Row(1, 2)];
  }

  /** From index `k` on, `rows` are the rows of the text from `start` on. */
  ghost predicate Remaining(rows: seq<Row>, k: nat, t: seq<byte>, start: nat, width: nat)
  {
    start <= |t| && width > 0 && k <= |rows| && rows[k..] == Rows(t, start, width)
  }

  function RowCount(start: nat, end: nat, width: nat): nat
    requires start <= end && width > 0
  {
    if end == start then 1 else DivCeil(end - start, width)
  }

  lemma AllRemain(t: seq<byte>, width: nat)
    requires width > 0
    ensures Remaining(Rows(t, 0, width), 0, t, 0, width)
  {
  }

  /** A line's own rows come first, then those of the next line. */
  lemma LineOfRows(t: seq<byte>, start: nat, width: nat, rows: seq<Row>, k: nat)
    requires Remaining(rows, k, t, start, width)
    ensures start <= |t| && width > 0
    ensures var end := LineEnd(t, start); var n := RowCount(start, end, width);
            && k + n <= |rows| && n == |LineRows(start, end, width)|
            && (forall row | k <= row < k + n :: rows[row] == LineRows(start, end, width)[row - k])
            && (if end < |t| then Remaining(rows, k + n, t, end + 1, width) else k + n == |rows|)
  {
    hide Rows, LineRows, LineEnd, RowCount, OneLine;
    var end := LineEnd(t, start);
    LineRowCount(start, end, width);
    RowsStep(t, start, width);
    var a := LineRows(start, end, width);
    forall row | k <= row < k + |a| ensures rows[row] == a[row - k] { assert rows[row] == rows[k..][row - k]; }
    assert rows[k + |a|..] == rows[k..][|a|..];
  }

  lemma LineRowCount(start: nat, end: nat, width: nat)
    requires start <= end && width > 0
    ensures |LineRows(start, end, width)| == RowCount(start, end, width)
  {
    hide LineRows, DivCeil;
    LineRowAt(start, end, width, 0);
  }

  /** Row `k` of the line `start..end` in machine arithmetic, and the cursor's column in it. */
  function SegmentAt(start: nat, end: nat, width: nat, k: nat, cursor: nat): (nat, nat, Option<nat>)
    requires width > 0
  {
    var s := RowStart(start, k, width);
    var e := Min((s + width) % U64, end);
    (s, e, if s <= cursor <= e then Some(Min(cursor - s, width - 1)) else None)
  }

  /** The segment the code computes for row `k` of a line is that row, painted. */
  lemma Segment(start: nat, end: nat, width: nat, k: nat, cursor: nat)
    requires start <= end <= BUF_MAX && 0 < width < U64 && k < |LineRows(start, end, width)|
    ensures Painted(LineRows(start, end, width)[k], width, cursor) == SegmentAt(start, end, width, k, cursor)
  {
    hide LineRows, RowStart, DivCeil;
    LineRowAt(start, end, width, k);
    LineRowBounds(start, end, width, k);
    WordSum(RowStart(start, k, width), width);
  }

  lemma LineRowBounds(start: nat, end: nat, width: nat, k: nat)
    requires start <= end && width > 0 && k < |LineRows(start, end, width)|
    ensures LineRows(start, end, width)[k].start <= end
  {
    hide LineRows;
    var t := seq(end, _ => 0);
    LineTiles(t, start, end, width);
    assert IsRow(t, width, LineRows(start, end, width)[k]);
  }

  lemma WordSum(a: nat, b: nat)
    requires a < U64 && b < U64
    ensures (a + b) % U64 == if a + b < U64 then a + b else a + b - U64
  {
  }

  class Buffer {
    const buf: array<byte>
    var len: nat
    var cursor: nat

    ghost predicate Valid()
      reads this
    {
      buf.Length == BUF_MAX && cursor <= len <= BUF_MAX
    }

    ghost function Text(): (t: seq<byte>)
      requires Valid()
      reads this, buf
      ensures |t| == len
    {
      buf[..len]
    }

    /** The text before the cursor. */
    ghost function Before(): seq<byte>
      requires Valid()
      reads this, buf
    {
      buf[..cursor]
    }

    /** The text from the cursor on. */
    ghost function After(): seq<byte>
      requires Valid()
      reads this, buf
    {
      buf[cursor..len]
    }

    constructor (bytes: seq<byte>)
      ensures Valid() && fresh(buf) && Before() == bytes[..Min(|bytes|, BUF_MAX)] && After() == []
    {
      var n := Min(|bytes|, BUF_MAX);
      buf := new byte[BUF_MAX](i requires 0 <= i < BUF_MAX => if i < |bytes| then bytes[i] else 0);
      len, cursor := n, n;
    }

    method Insert(ch: byte) returns (ok: bool)
      requires Valid()
      modifies this, buf
      ensures Valid() && ok == (old(len) < BUF_MAX)
      ensures After() == old(After()) && Before() == old(Before()) + if ok then [ch] else []
    {
      if len >= BUF_MAX { return false; }
      ghost var was := buf[..];
      OpenGap();
      buf[cursor] := ch;
      len := len + 1;
      cursor := cursor + 1;
      assert buf[cursor..len] == was[cursor - 1..len - 1];
      ok := true;
    }

    /** Shifts the text from the cursor on by one. */
    method OpenGap()
      requires Valid() && len < BUF_MAX
      modifies buf
      ensures buf[..cursor] == old(buf[..cursor]) && buf[cursor + 1..len + 1] == old(buf[cursor..len])
    {
      var i := len;
      while i > cursor
        invariant cursor <= i <= len
        invariant forall k | 0 <= k < i :: buf[k] == old(buf[k])
        invariant forall k | i <= k < len :: buf[k + 1] == old(buf[k])
      {
        buf[i] := buf[i - 1];
        i := i - 1;
      }
    }

    method Backspace() returns (ok: bool)
      requires Valid()
      modifies this, buf
      ensures Valid() && ok == (old(cursor) > 0)
      ensures After() == old(After()) && Before() == if ok then old(Before())[..old(cursor) - 1] else old(Before())
    {
      if cursor == 0 { return false; }
      ghost var was := buf[..];
      CloseGap();
      len := len - 1;
      cursor := cursor - 1;
      assert buf[cursor..len] == was[cursor + 1..len + 1];
      ok := true;
    }

    /** Shifts the text from the cursor on back by one. */
    method CloseGap()
      requires Valid() && cursor > 0
      modifies buf
      ensures buf[..cursor - 1] == old(buf[..cursor - 1]) && buf[cursor - 1..len - 1] == old(buf[cursor..len])
    {
      var i := cursor - 1;
      while i + 1 < len
        invariant cursor - 1 <= i < len
        invariant forall k | 0 <= k < cursor - 1 || i < k < len :: buf[k] == old(buf[k])
        invariant forall k | cursor <= k <= i :: buf[k - 1] == old(buf[k])
      {
        buf[i] := buf[i + 1];
        i := i + 1;
      }
    }

    /** Backspace undoes a character typed into a buffer with room. */
    method TypeAndErase(ch: byte)
      requires Valid() && len < BUF_MAX
      modifies this, buf
      ensures Valid() && Before() == old(Before()) && After() == old(After())
    {
      var typed := Insert(ch);
      var erased := Backspace();
    }

    method FindLineStart(pos: nat) returns (i: nat)
      requires Valid()
      ensures i == LineStart(Text(), Min(pos, len))
    {
      i := Min(pos, len);
      while i > 0 && buf[i - 1] != NEWLINE
        invariant i <= len && LineStart(Text(), i) == LineStart(Text(), Min(pos, len))
      {
        i := i - 1;
      }
    }

    method FindLineEnd(pos: nat) returns (i: nat)
      requires Valid()
      ensures i == LineEnd(Text(), Min(pos, len))
    {
      i := Min(pos, len);
      while i < len && buf[i] != NEWLINE
        invariant i <= len && LineEnd(Text(), i) == LineEnd(Text(), Min(pos, len))
      {
        i := i + 1;
      }
    }

    method CursorUp() returns (ok: bool)
      requires Valid()
      modifies `cursor
      ensures Valid() && ok == Up(Text(), old(cursor)).Some?
      ensures cursor == if ok then Up(Text(), old(cursor)).value else old(cursor)
    {
      hide LineStart, OneLine;
      var s := FindLineStart(cursor);
      if s == 0 { return false; }
      var prev := FindLineStart(s - 1);
      var target := prev + Min(cursor - s, s - 1 - prev);
      ok := target != cursor;
      if ok { cursor := target; }
    }

    method CursorDown() returns (ok: bool)
      requires Valid()
      modifies `cursor
      ensures Valid() && ok == Down(Text(), old(cursor)).Some?
      ensures cursor == if ok then Down(Text(), old(cursor)).value else old(cursor)
    {
      hide LineStart, LineEnd, OneLine;
      var s := FindLineStart(cursor);
      var e := FindLineEnd(cursor);
      if e >= len { return false; }
      var next := e + 1;
      var end := FindLineEnd(next);
      var target := next + Min(cursor - s, end - next);
      ok := target != cursor;
      if ok { cursor := target; }
    }

    /** The bytes and cursor column of one screen row; none past the last row. */
    method VisualRow(row: nat, width: nat) returns (r: Option<(nat, nat, Option<nat>)>)
      requires Valid() && width < U64
      ensures var w := if width > 1 then width else 1; var rows := Rows(Text(), 0, w);
              && r == (if row < |rows| then Some(Painted(rows[row], w, cursor)) else None)
              && (r.Some? ==> (r.value.0 == rows[row].start && r.value.1 == rows[row].end <==> rows[row].start + w < U64))
              && (r.Some? ==> (r.value.0 <= r.value.1 <==> rows[row].start + w < U64))
    {
      hide Rows, LineRows, Painted, SegmentAt, LineEnd, RowCount, Remaining, OneLine, Text;
      var w := if width > 1 then width else 1;
      ghost var t := Text();
      ghost var rows := Rows(t, 0, w);
      var start: nat, curRow: nat := 0, 0;
      AllRemain(t, w);
      while true
        invariant start <= len && curRow <= row && Remaining(rows, curRow, t, start, w)
        decreases len - start
      {
        var end := FindLineEnd(start);
        var visual := RowCount(start, end, w);
        LineOfRows(t, start, w, rows, curRow);
        if curRow + visual > row {
          Segment(start, end, w, row - curRow, cursor);
          RowsTile(t, 0, w);
          PaintedIffNoWrap(t, rows[row], w, cursor);
          return Some(SegmentAt(start, end, w, row - curRow, cursor));
        }
        curRow := curRow + visual;
        if end >= len { break; }
        start := end + 1;
      }
      r := None;
    }
  }
}
