/** The kernel heap (liballoc) without its links: blocks of pages obtained from the
    page source, each holding allocated cells in address order. A cell is a header
    and the bytes after it. */
module HeapShape {

  const MAJOR: nat := 24       // size of a block header
  const MINOR: nat := 24       // size of a cell header
  const PADDING: nat := 32     // ALIGNMENT + ALIGN_INFO, added to every request

  /** `size` is what malloc reserved after the header, `req` what the caller asked for. */
  datatype Cell = Cell(addr: nat, size: nat, req: nat)

  datatype Block = Block(addr: nat, pages: nat, cells: seq<Cell>)

  type Shape = seq<Block>

  function End(c: Cell): nat {
    c.addr + 24 + c.size
  }

  function BlockEnd(b: Block): nat {
    b.addr + b.pages * 4096
  }

  // ---------- alignment ----------

  /** The user pointer of the cell at `a`: the ALIGN macro. */
  function UserPtr(a: nat): (p: nat)
    ensures p % 16 == 0 && a + 24 + 16 <= p < a + 24 + 32
  {
    var p := a + 24 + 16;
    if p % 16 != 0 then p + (16 - p % 16) else p
  }

  /** The byte that ALIGN leaves 16 below the pointer, and where. */
  function Mark(a: nat): (d: nat)
    ensures 16 <= d < 32
  {
    UserPtr(a) - (a + 24)
  }

  function MarkAddr(a: nat): nat {
    UserPtr(a) - 16
  }

  /** UNALIGN and the step back over the header find the cell again. */
  lemma UnalignFindsCell(a: nat)
    ensures UserPtr(a) - Mark(a) - 24 == a
  {
  }

  // ---------- a well-formed heap ----------

  ghost predicate CellsOk(lo: nat, cells: seq<Cell>, hi: nat) {
    && (forall i :: 0 <= i < |cells| ==> lo <= cells[i].addr && End(cells[i]) <= hi && cells[i].req + 32 <= cells[i].size)
    && (forall i, j :: 0 <= i < j < |cells| ==> End(cells[i]) <= cells[j].addr)
  }

  ghost predicate BlockOk(b: Block) {
    b.addr > 0 && b.pages > 0 && CellsOk(b.addr + 24, b.cells, BlockEnd(b))
  }

  predicate Apart(a: Block, b: Block) {
    BlockEnd(a) <= b.addr || BlockEnd(b) <= a.addr
  }

  ghost predicate ShapeOk(s: Shape) {
    && (forall b :: 0 <= b < |s| ==> BlockOk(s[b]))
    && (forall b, c :: 0 <= b < c < |s| ==> Apart(s[b], s[c]))
  }

  ghost predicate IsCell(s: Shape, b: nat, i: nat) {
    b < |s| && i < |s[b].cells|
  }

  /** Distinct cells do not overlap, headers included, and lie inside their block. */
  lemma CellsDisjoint(s: Shape, b: nat, i: nat, c: nat, j: nat)
    requires ShapeOk(s) && IsCell(s, b, i) && IsCell(s, c, j) && (b, i) != (c, j)
    ensures var x, y := s[b].cells[i], s[c].cells[j]; End(x) <= y.addr || End(y) <= x.addr
  {
    if b < c {
      assert Apart(s[b], s[c]);
    } else if c < b {
      assert Apart(s[c], s[b]);
    }
  }

  /** The bytes a caller may use, for every live cell: aligned, as many as asked
      for, behind the cell's own header and alignment byte. */
  lemma UserRangeInside(s: Shape, b: nat, i: nat)
    requires ShapeOk(s) && IsCell(s, b, i)
    ensures var x := s[b].cells[i];
      && UserPtr(x.addr) % 16 == 0
      && x.addr + 24 <= MarkAddr(x.addr) < UserPtr(x.addr) && UserPtr(x.addr) + x.req <= End(x)
      && s[b].addr + 24 <= x.addr && End(x) <= BlockEnd(s[b])
  {
  }

  /** A live user range meets no other user range, no other cell's header or
      alignment byte, no block header and not its own. */
  lemma UserRangesSafe(s: Shape, b: nat, i: nat, c: nat, j: nat, x: nat)
    requires ShapeOk(s) && IsCell(s, b, i) && IsCell(s, c, j)
    requires var u := s[b].cells[i]; UserPtr(u.addr) <= x < UserPtr(u.addr) + u.req
    ensures var v := s[c].cells[j];
      && !(v.addr <= x < v.addr + 24) && x != MarkAddr(v.addr)
      && ((b, i) != (c, j) ==> !(UserPtr(v.addr) <= x < UserPtr(v.addr) + v.req))
    ensures forall d :: 0 <= d < |s| ==> !(s[d].addr <= x < s[d].addr + 24)
  {
    UserRangeInside(s, b, i);
    UserRangeInside(s, c, j);
    if (b, i) != (c, j) {
      CellsDisjoint(s, b, i, c, j);
    }
    forall d | 0 <= d < |s|
      ensures !(s[d].addr <= x < s[d].addr + 24)
    {
      if d < b {
        assert Apart(s[d], s[b]);
      } else if b < d {
        assert Apart(s[b], s[d]);
      }
    }
  }

  // ---------- totals ----------

  function SumSizes(cells: seq<Cell>): nat {
    if cells == [] then 0 else SumSizes(cells[..|cells| - 1]) + cells[|cells| - 1].size
  }

  /** The usage field of a block header. */
  function Usage(b: Block): nat {
    24 + SumSizes(b.cells) + 24 * |b.cells|
  }

  function InUse(s: Shape): nat {
    if s == [] then 0 else InUse(s[..|s| - 1]) + SumSizes(s[|s| - 1].cells)
  }

  function Allocated(s: Shape): nat {
    if s == [] then 0 else Allocated(s[..|s| - 1]) + s[|s| - 1].pages * 4096
  }

  lemma {:induction false} CellsFit(lo: nat, cells: seq<Cell>, hi: nat)
    requires CellsOk(lo, cells, hi) && lo <= hi
    ensures lo + SumSizes(cells) + 24 * |cells| <= hi
  {
    if cells != [] {
      var init, last := cells[..|cells| - 1], cells[|cells| - 1];
      CellsFit(lo, init, last.addr);
    }
  }

  /** What is used of a block never exceeds the block. */
  lemma UsageFits(b: Block)
    requires BlockOk(b)
    ensures Usage(b) <= b.pages * 4096
  {
    CellsFit(b.addr + 24, b.cells, BlockEnd(b));
  }

  // ---------- placing and removing a cell ----------

  function Inserted<T>(q: seq<T>, i: nat, x: T): (r: seq<T>)
    requires i <= |q|
    ensures |r| == |q| + 1
  {
    q[..i] + [x] + q[i..]
  }

  function Removed<T>(q: seq<T>, i: nat): (r: seq<T>)
    requires i < |q|
    ensures |r| == |q| - 1
  {
    q[..i] + q[i + 1..]
  }

  function Placed(s: Shape, b: nat, i: nat, c: Cell): Shape
    requires b < |s| && i <= |s[b].cells|
  {
    s[b := s[b].(cells := Inserted(s[b].cells, i, c))]
  }

  function Taken(s: Shape, b: nat, i: nat): Shape
    requires b < |s| && i < |s[b].cells|
  {
    s[b := s[b].(cells := Removed(s[b].cells, i))]
  }

  /** The gap before cell `i`: where it starts and where it ends. */
  function GapStart(b: Block, i: nat): nat
    requires i <= |b.cells|
  {
    if i == 0 then b.addr + 24 else End(b.cells[i - 1])
  }

  function GapEnd(b: Block, i: nat): nat
    requires i <= |b.cells|
  {
    if i == |b.cells| then BlockEnd(b) else b.cells[i].addr
  }

  lemma InsertedOk(lo: nat, cells: seq<Cell>, hi: nat, i: nat, c: Cell)
    requires CellsOk(lo, cells, hi) && i <= |cells| && c.req + 32 <= c.size
    requires (if i == 0 then lo else End(cells[i - 1])) <= c.addr && lo <= c.addr
    requires End(c) <= (if i == |cells| then hi else cells[i].addr) && End(c) <= hi
    ensures CellsOk(lo, Inserted(cells, i, c), hi)
  {
    var r := Inserted(cells, i, c);
    forall k, j | 0 <= k < j < |r|
      ensures End(r[k]) <= r[j].addr
    {
      if k < i - 1 && j == i {
        assert End(cells[k]) <= cells[i - 1].addr;
      }
      if k == i && j > i + 1 {
        assert End(cells[i]) <= cells[j - 1].addr;
      }
    }
  }

  lemma {:induction false} SumInserted(cells: seq<Cell>, i: nat, c: Cell)
    requires i <= |cells|
    ensures SumSizes(Inserted(cells, i, c)) == SumSizes(cells) + c.size
  {
    var r := Inserted(cells, i, c);
    if i == |cells| {
      assert r[..|r| - 1] == cells;
    } else {
      SumInserted(cells[..|cells| - 1], i, c);
      assert r[..|r| - 1] == Inserted(cells[..|cells| - 1], i, c);
    }
  }

  lemma PutBack<T>(q: seq<T>, i: nat)
    requires i < |q|
    ensures Inserted(Removed(q, i), i, q[i]) == q
  {
  }

  lemma SumRemoved(cells: seq<Cell>, i: nat)
    requires i < |cells|
    ensures SumSizes(Removed(cells, i)) + cells[i].size == SumSizes(cells)
  {
    hide SumSizes, Removed, Inserted;
    SumInserted(Removed(cells, i), i, cells[i]);
    PutBack(cells, i);
  }

  lemma {:induction false} InUseChanged(s: Shape, t: Shape, b: nat)
    requires |s| == |t| && b < |s| && t == s[b := t[b]]
    ensures InUse(t) + SumSizes(s[b].cells) == InUse(s) + SumSizes(t[b].cells)
  {
    if b == |s| - 1 {
      assert s[..b] == t[..b];
    } else {
      var s', t' := s[..|s| - 1], t[..|s| - 1];
      assert t' == s'[b := t'[b]];
      InUseChanged(s', t', b);
    }
  }

  lemma {:induction false} AllocatedChanged(s: Shape, t: Shape, b: nat)
    requires |s| == |t| && b < |s| && t == s[b := t[b]]
    ensures Allocated(t) + s[b].pages * 4096 == Allocated(s) + t[b].pages * 4096
  {
    if b == |s| - 1 {
      assert s[..b] == t[..b];
    } else {
      var s', t' := s[..|s| - 1], t[..|s| - 1];
      assert t' == s'[b := t'[b]];
      AllocatedChanged(s', t', b);
    }
  }

  lemma {:induction false} TotalsWithout(s: Shape, b: nat)
    requires b < |s|
    ensures InUse(Removed(s, b)) + SumSizes(s[b].cells) == InUse(s)
    ensures Allocated(Removed(s, b)) + s[b].pages * 4096 == Allocated(s)
  {
    if b == |s| - 1 {
      assert Removed(s, b) == s[..b];
    } else {
      var s' := s[..|s| - 1];
      TotalsWithout(s', b);
      assert Removed(s, b)[..|s| - 2] == Removed(s', b);
    }
  }

  lemma BlockChanged(s: Shape, t: Shape, b: nat)
    requires ShapeOk(s) && |s| == |t| && b < |s| && t == s[b := t[b]]
    requires BlockOk(t[b]) && t[b].addr == s[b].addr && t[b].pages == s[b].pages
    ensures ShapeOk(t)
  {
    hide CellsOk;
    assert forall k :: 0 <= k < |s| ==> t[k].addr == s[k].addr && BlockEnd(t[k]) == BlockEnd(s[k]);
    forall k, c | 0 <= k < c < |t|
      ensures Apart(t[k], t[c])
    {
      assert Apart(s[k], s[c]);
    }
  }

  /** Placing a cell in a gap keeps the heap well formed; the totals grow by its size. */
  lemma PlacedOk(s: Shape, b: nat, i: nat, c: Cell)
    requires ShapeOk(s) && b < |s| && i <= |s[b].cells| && c.req + 32 <= c.size
    requires c.addr == GapStart(s[b], i) && End(c) <= GapEnd(s[b], i)
    ensures ShapeOk(Placed(s, b, i, c))
    ensures InUse(Placed(s, b, i, c)) == InUse(s) + c.size && Allocated(Placed(s, b, i, c)) == Allocated(s)
    ensures Usage(Placed(s, b, i, c)[b]) == Usage(s[b]) + c.size + 24
  {
    hide SumSizes, InUse, Allocated, Inserted, CellsOk;
    GapInside(s[b], i);
    var t := Placed(s, b, i, c);
    InsertedOk(s[b].addr + 24, s[b].cells, BlockEnd(s[b]), i, c);
    SumInserted(s[b].cells, i, c);
    InUseChanged(s, t, b);
    AllocatedChanged(s, t, b);
    BlockChanged(s, t, b);
  }

  lemma GapInside(b: Block, i: nat)
    requires BlockOk(b) && i <= |b.cells|
    ensures b.addr + 24 <= GapStart(b, i) && GapEnd(b, i) <= BlockEnd(b)
  {
  }

  lemma RemovedOk(lo: nat, cells: seq<Cell>, hi: nat, i: nat)
    requires CellsOk(lo, cells, hi) && i < |cells|
    ensures CellsOk(lo, Removed(cells, i), hi)
  {
  }

  /** Taking a cell out keeps the heap well formed; the totals shrink by its size. */
  lemma TakenOk(s: Shape, b: nat, i: nat)
    requires ShapeOk(s) && IsCell(s, b, i)
    ensures ShapeOk(Taken(s, b, i))
    ensures InUse(Taken(s, b, i)) + s[b].cells[i].size == InUse(s) && Allocated(Taken(s, b, i)) == Allocated(s)
    ensures Usage(Taken(s, b, i)[b]) + s[b].cells[i].size + 24 == Usage(s[b])
  {
    hide SumSizes, InUse, Allocated, Removed, CellsOk;
    var t := Taken(s, b, i);
    RemovedOk(s[b].addr + 24, s[b].cells, BlockEnd(s[b]), i);
    SumRemoved(s[b].cells, i);
    InUseChanged(s, t, b);
    AllocatedChanged(s, t, b);
    BlockChanged(s, t, b);
  }

  /** A block returned to the page source. */
  lemma WithoutOk(s: Shape, b: nat)
    requires ShapeOk(s) && b < |s| && s[b].cells == []
    ensures ShapeOk(Removed(s, b))
    ensures InUse(Removed(s, b)) == InUse(s) && Allocated(Removed(s, b)) + s[b].pages * 4096 == Allocated(s)
  {
    hide InUse, Allocated, CellsOk;
    TotalsWithout(s, b);
  }

  /** A block obtained from the page source. */
  lemma GrownOk(s: Shape, n: Block)
    requires ShapeOk(s) && BlockOk(n) && n.cells == [] && forall b :: 0 <= b < |s| ==> Apart(s[b], n)
    ensures ShapeOk(s + [n]) && InUse(s + [n]) == InUse(s) && Allocated(s + [n]) == Allocated(s) + n.pages * 4096
  {
    assert (s + [n])[..|s|] == s;
  }
}
