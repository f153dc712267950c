/** The kernel heap: malloc, free and realloc over linked headers in memory. What the
    page source hands out is a parameter of each call. */
module Liballoc {
  import opened HeapShape
  import opened HeapLinks
  import opened HeapResize

  /** Pages needed for a first cell of `size` bytes, and at least the configured minimum. */
  function PagesFor(size: nat, pageCount: nat): (st: nat)
    ensures st * 4096 >= size + 48 && st >= pageCount && st > 0
    ensures st == pageCount || (st - 1) * 4096 < size + 48
  {
    var need := size + 48;
    var st := if need % 4096 == 0 then need / 4096 else need / 4096 + 1;
    if st < pageCount then pageCount else st
  }

  /** The alignment bytes of a block's cells. */
  ghost predicate Marked(mem: map<nat, nat>, b: Block) {
    forall i :: 0 <= i < |b.cells| ==> MarkAddr(b.cells[i].addr) in mem && mem[MarkAddr(b.cells[i].addr)] == Mark(b.cells[i].addr)
  }

  ghost predicate AllMarked(mem: map<nat, nat>, s: Shape) {
    forall b :: 0 <= b < |s| ==> Marked(mem, s[b])
  }

  /** Every block holds at least one cell: emptied blocks go back to the page source. */
  ghost predicate Occupied(s: Shape) {
    forall b :: 0 <= b < |s| ==> s[b].cells != []
  }

  /** No gap of the block takes `need` bytes. */
  ghost predicate NoGap(b: Block, need: nat) {
    forall i :: 0 <= i <= |b.cells| ==> GapEnd(b, i) < GapStart(b, i) + need
  }

  /** A gap is never larger than what the block's counters say is free. */
  lemma GapWithinFree(b: Block, i: nat)
    requires BlockOk(b) && i <= |b.cells|
    ensures GapEnd(b, i) - GapStart(b, i) + Usage(b) <= b.pages * 4096
  {
    var before, after := b.cells[..i], b.cells[i..];
    CellsFit(b.addr + 24, before, GapStart(b, i));
    CellsFit(GapEnd(b, i), after, BlockEnd(b));
    SumSplit(b.cells, i);
  }

  lemma {:induction false} SumSplit(cells: seq<Cell>, i: nat)
    requires i <= |cells|
    ensures SumSizes(cells) == SumSizes(cells[..i]) + SumSizes(cells[i..])
  {
    if i == |cells| {
      assert cells[..i] == cells;
    } else {
      SumSplit(cells[..|cells| - 1], i);
      assert cells[..|cells| - 1][..i] == cells[..i];
      assert cells[i..][..|cells| - 1 - i] == cells[..|cells| - 1][i..];
    }
  }

  lemma MarkedOther(mem: map<nat, nat>, s: Shape, b: nat, i: nat, k: nat)
    requires ShapeOk(s) && IsCell(s, b, i) && k < |s| && k != b && Marked(mem, s[k])
    ensures var a := s[b].cells[i].addr; Marked(mem[MarkAddr(a) := Mark(a)], s[k])
  {
    var a := s[b].cells[i].addr;
    forall j | 0 <= j < |s[k].cells|
      ensures MarkAddr(s[k].cells[j].addr) != MarkAddr(a)
    {
      CellsDisjoint(s, k, j, b, i);
      UserRangeInside(s, k, j);
      UserRangeInside(s, b, i);
    }
  }

  lemma MarkedSame(mem: map<nat, nat>, s: Shape, b: nat, i: nat, c: Cell)
    requires b < |s| && i <= |s[b].cells| && ShapeOk(Placed(s, b, i, c)) && Marked(mem, s[b])
    ensures Marked(mem[MarkAddr(c.addr) := Mark(c.addr)], Placed(s, b, i, c)[b])
  {
    var t := Placed(s, b, i, c);
    var cells := t[b].cells;
    assert cells[i] == c;
    forall j | 0 <= j < |cells| && j != i
      ensures MarkAddr(cells[j].addr) != MarkAddr(c.addr)
      ensures MarkAddr(cells[j].addr) in mem && mem[MarkAddr(cells[j].addr)] == Mark(cells[j].addr)
    {
      CellsDisjoint(t, b, j, b, i);
      UserRangeInside(t, b, j);
      UserRangeInside(t, b, i);
      assert cells[j] == s[b].cells[if j < i then j else j - 1];
    }
  }

  /** Marking the new cell leaves the other cells' marks alone. */
  lemma MarkPlaced(mem: map<nat, nat>, s: Shape, b: nat, i: nat, c: Cell)
    requires b < |s| && i <= |s[b].cells| && ShapeOk(Placed(s, b, i, c)) && AllMarked(mem, s)
    ensures AllMarked(mem[MarkAddr(c.addr) := Mark(c.addr)], Placed(s, b, i, c))
  {
    hide ShapeOk, Marked, Inserted;
    var t := Placed(s, b, i, c);
    MarkedSame(mem, s, b, i, c);
    assert t[b].cells[i] == c by { InsertedAt(s[b].cells, i, c); }
    forall k | 0 <= k < |t| && k != b
      ensures Marked(mem[MarkAddr(c.addr) := Mark(c.addr)], t[k])
    {
      MarkedOther(mem, t, b, i, k);
    }
  }

  lemma InsertedAt(cells: seq<Cell>, i: nat, c: Cell)
    requires i <= |cells|
    ensures Inserted(cells, i, c)[i] == c
  {
  }

  /** The block header once the cell is counted. */
  lemma PlacedMajor(majors: map<nat, Major>, s: Shape, b: nat, i: nat, c: Cell)
    requires ShapeOk(s) && RepMajors(majors, s) && b < |s| && i <= |s[b].cells|
    ensures s[b].addr in majors
    ensures var old' := majors[s[b].addr]; var first := if i == 0 then c.addr else old'.first;
      RepMajors(majors[s[b].addr := old'.(usage := old'.usage + c.size + 24, first := first)], Placed(s, b, i, c))
  {
    hide ShapeOk, RepMajors, DistinctBlocks, CellAddrs, BlockAddrs;
    var t := Placed(s, b, i, c);
    HeaderOf(majors, s, b);
    ShapeDistinct(s);
    SumInserted(s[b].cells, i, c);
    assert MajorAt(t, b).usage == Usage(s[b]) + c.size + 24;
    assert CellAddr(t[b].cells, 0) == if i == 0 then c.addr else CellAddr(s[b].cells, 0);
    hide Usage, Inserted;
    MajorChanged(majors, s, t, b);
  }

  lemma ChangedAddrs(s: Shape, t: Shape, b: nat)
    requires |s| == |t| && b < |s| && t == s[b := t[b]] && t[b].addr == s[b].addr
    ensures BlockAddrs(t) == BlockAddrs(s) && forall k :: BlockAddr(t, k) == BlockAddr(s, k)
  {
    SameAddrs(s, t);
  }

  lemma PlacedAddrs(s: Shape, b: nat, i: nat, c: Cell)
    requires b < |s| && i <= |s[b].cells|
    ensures BlockAddrs(Placed(s, b, i, c)) == BlockAddrs(s) && BlockAddr(Placed(s, b, i, c), 0) == BlockAddr(s, 0)
  {
    ChangedAddrs(s, Placed(s, b, i, c), b);
  }

  lemma NeighboursLive(minors: map<nat, Minor>, s: Shape, b: nat, i: nat)
    requires RepMinors(minors, s) && b < |s| && i <= |s[b].cells|
    ensures var left, right := CellAddr(s[b].cells, i - 1), CellAddr(s[b].cells, i);
      (i > 0 ==> left in minors) && (i < |s[b].cells| ==> right in minors)
  {
    assert RepBlock(minors, s[b]);
    if i > 0 {
      var l := MinorAt(s[b], i - 1);
    }
    if i < |s[b].cells| {
      var r := MinorAt(s[b], i);
    }
  }

  lemma HeaderOf(majors: map<nat, Major>, s: Shape, b: nat)
    requires RepMajors(majors, s) && b < |s|
    ensures s[b].addr in majors && majors[s[b].addr] == MajorAt(s, b) && s[b].addr in BlockAddrs(s)
  {
    var own := MajorAt(s, b);
    assert s[b].addr in BlockAddrs(s);
  }

  lemma HeaderKeys(majors: map<nat, Major>, s: Shape)
    requires RepMajors(majors, s)
    ensures majors.Keys == BlockAddrs(s)
  {
  }

  lemma CellOf(minors: map<nat, Minor>, s: Shape, b: nat, i: nat)
    requires RepMinors(minors, s) && b < |s| && i < |s[b].cells|
    ensures s[b].cells[i].addr in minors && minors[s[b].cells[i].addr] == MinorAt(s[b], i)
  {
    assert RepBlock(minors, s[b]);
    var own := MinorAt(s[b], i);
  }

  /** `t` is `s` with a new cell in gap `i` of block `b`, and `p` is its user pointer. */
  ghost predicate PlacedHere(s: Shape, t: Shape, b: nat, i: nat, size: nat, req: nat, p: nat) {
    && b < |s| && i <= |s[b].cells| && GapStart(s[b], i) + size + 24 <= GapEnd(s[b], i)
    && t == Placed(s, b, i, Cell(GapStart(s[b], i), size, req)) && p == UserPtr(GapStart(s[b], i))
  }

  lemma GrownShape(s: Shape, n: Block)
    requires ShapeOk(s) && n.addr > 0 && n.pages > 0 && n.cells == [] && forall b :: 0 <= b < |s| ==> Apart(s[b], n)
    ensures ShapeOk(s + [n]) && InUse(s + [n]) == InUse(s) && Allocated(s + [n]) == Allocated(s) + n.pages * 4096
    ensures DistinctBlocks(s + [n]) && n.addr !in BlockAddrs(s) && BlockAddrs(s + [n]) == BlockAddrs(s) + {n.addr}
    ensures forall k :: 0 <= k < |s| ==> s[k].addr != 0
  {
    hide InUse, Allocated;
    assert BlockOk(n) by { assert CellsOk(n.addr + 24, [], BlockEnd(n)); }
    GrownOk(s, n);
    ShapeDistinct(s + [n]);
    GrownAddrs(s, n);
    forall k | 0 <= k < |s|
      ensures s[k].addr != n.addr
    {
      DifferentBlocks(s + [n], k, |s|);
    }
  }

  /** Writing the new header first and linking it afterwards comes to the same. */
  lemma GrownSteps(majors: map<nat, Major>, s: Shape, n: Block)
    requires n.addr !in majors && n.addr != 0
    requires s != [] ==> s[|s| - 1].addr in majors && s[|s| - 1].addr != 0
    ensures var fresh' := majors[n.addr := Major(0, 0, n.pages, n.pages * 4096, 24, 0)];
      && (s == [] ==> fresh' == GrownMajors(majors, s, n))
      && (s != [] ==>
            var last := s[|s| - 1].addr;
            var linked := fresh'[last := fresh'[last].(next := n.addr)];
            linked[n.addr := linked[n.addr].(prev := last)] == GrownMajors(majors, s, n))
  {
  }

  lemma MarksGrown(mem: map<nat, nat>, s: Shape, n: Block)
    requires AllMarked(mem, s) && n.cells == []
    ensures AllMarked(mem, s + [n])
  {
    assert Marked(mem, n);
    hide Marked;
  }

  /** malloc's effect: a new cell in a gap of the old blocks or of one more block. */
  ghost predicate Allocates(s: Shape, t: Shape, block: Block, req: nat, p: nat) {
    var size := req + 32;
    || (exists b, i :: PlacedHere(s, t, b, i, size, req, p))
    || (block.addr != 0 && PlacedHere(s + [block], t, |s|, 0, size, req, p))
  }

  /** No gap before gap `i` takes `need` bytes. */
  ghost predicate FirstGap(b: Block, i: nat, need: nat) {
    i <= |b.cells| && forall j :: 0 <= j < i ==> GapEnd(b, j) < GapStart(b, j) + need
  }

  /** `need` bytes of the block from `a` on that are behind its header and in no cell. */
  ghost predicate FreeRange(b: Block, a: nat, need: nat) {
    && b.addr + 24 <= a && a + need <= BlockEnd(b)
    && forall i :: 0 <= i < |b.cells| ==> End(b.cells[i]) <= a || a + need <= b.cells[i].addr
  }

  /** A free range is inside one gap. */
  lemma {:induction false} RangeInGap(b: Block, a: nat, need: nat, n: nat) returns (i: nat)
    requires BlockOk(b) && FreeRange(b, a, need) && need > 0 && n <= |b.cells|
    requires n < |b.cells| ==> a + need <= b.cells[n].addr
    ensures i <= n && GapStart(b, i) <= a && a + need <= GapEnd(b, i)
  {
    if n == 0 || End(b.cells[n - 1]) <= a {
      i := n;
    } else {
      i := RangeInGap(b, a, need, n - 1);
    }
  }

  lemma GapIsFree(b: Block, i: nat, need: nat)
    requires BlockOk(b) && i <= |b.cells| && GapStart(b, i) + need <= GapEnd(b, i)
    ensures FreeRange(b, GapStart(b, i), need)
  {
    assert i > 0 ==> forall j :: 0 <= j < i - 1 ==> End(b.cells[j]) <= b.cells[i - 1].addr;
  }

  /** A block has no gap for `need` bytes exactly if it has no `need` free bytes in a row. */
  lemma NoGapMeans(b: Block, need: nat)
    requires BlockOk(b) && need > 0
    ensures NoGap(b, need) <==> forall a: nat :: !FreeRange(b, a, need)
  {
    if a: nat :| FreeRange(b, a, need) {
      var i := RangeInGap(b, a, need, |b.cells|);
    }
    if !NoGap(b, need) {
      var i :| 0 <= i <= |b.cells| && GapEnd(b, i) >= GapStart(b, i) + need;
      GapIsFree(b, i, need);
    }
  }

  /** The first gap is the lowest address with so many free bytes. */
  lemma FirstGapIsLowest(b: Block, i: nat, need: nat, a: nat)
    requires BlockOk(b) && need > 0 && FirstGap(b, i, need) && GapStart(b, i) + need <= GapEnd(b, i) && FreeRange(b, a, need)
    ensures FreeRange(b, GapStart(b, i), need) && GapStart(b, i) <= a
  {
    GapIsFree(b, i, need);
    var k := RangeInGap(b, a, need, |b.cells|);
    assert k > i ==> End(b.cells[i]) <= a && GapStart(b, i) <= b.cells[i].addr;
  }

  /** The cell is in the first gap of block `b` that takes it. */
  ghost predicate PlacedFirst(s: Shape, t: Shape, b: nat, i: nat, size: nat, req: nat, p: nat) {
    PlacedHere(s, t, b, i, size, req, p) && FirstGap(s[b], i, size + 24)
  }

  ghost predicate IsBet(s: Shape, bet: nat, need: nat, k: nat) {
    k < |s| && s[k].addr == bet && s[k].pages * 4096 - Usage(s[k]) > need
  }

  /** The search begins at the best bet if that has more than `need` bytes free, and
      otherwise at the first block. */
  ghost predicate StartsAt(s: Shape, bet: nat, need: nat, start: nat) {
    IsBet(s, bet, need, start) || (start == 0 && forall k: nat :: !IsBet(s, bet, need, k))
  }

  /** A first block, made before the search begins, is not the best bet. */
  lemma StartedBefore(s0: Shape, s: Shape, grown: bool, bet: nat, need: nat, start: nat)
    requires StartsAt(s, bet, need, start) && (forall j :: 0 <= j < |s| ==> s[j].addr != 0)
    requires if grown then s0 == [] && bet == 0 else s == s0
    ensures StartsAt(s0, bet, need, start) && (IsBet(s, bet, need, start) <==> IsBet(s0, bet, need, start))
  {
    assert grown ==> forall k: nat :: !IsBet(s0, bet, need, k);
  }

  /** A search from block `start` to the last and then from the first on meets no large
      enough gap before block `b`. */
  ghost predicate FirstBlock(s: Shape, start: nat, b: nat, need: nat) {
    && b < |s|
    && (forall k :: start <= k < |s| && (k < b || b < start) ==> NoGap(s[k], need))
    && (b < start ==> forall k :: 0 <= k < b ==> NoGap(s[k], need))
  }

  // ---------- the best bet ----------

  ghost function FreeIn(b: Block): int {
    b.pages * 4096 - Usage(b)
  }

  /** The free bytes of the block that is the best bet; 0 without one. */
  ghost function FreeOf(s: Shape, bet: nat): int {
    if bet in BlockAddrs(s) then
      var k :| 0 <= k < |s| && s[k].addr == bet;
      FreeIn(s[k])
    else 0
  }

  ghost function Range(lo: nat, hi: nat): (r: seq<nat>)
    ensures lo <= hi ==> |r| == hi - lo
  {
    if lo <= hi then seq(hi - lo, i => lo + i) else []
  }

  ghost predicate InShape(s: Shape, seen: seq<nat>) {
    forall i :: 0 <= i < |seen| ==> seen[i] < |s|
  }

  /** The free bytes of these blocks. */
  ghost function Frees(s: Shape, seen: seq<nat>): (f: seq<int>)
    requires InShape(s, seen)
    ensures |f| == |seen|
  {
    seq(|seen|, i requires 0 <= i < |seen| => FreeIn(s[seen[i]]))
  }

  /** The `i`th number is the largest, larger than `v`, and the first so large. */
  ghost predicate IsTop(f: seq<int>, v: int, i: nat) {
    && i < |f| && f[i] > v && (forall j :: 0 <= j < i ==> f[j] < f[i]) && (forall j :: i < j < |f| ==> f[j] <= f[i])
  }

  ghost predicate NoneAbove(f: seq<int>, v: int) {
    forall j :: 0 <= j < |f| ==> f[j] <= v
  }

  ghost predicate TopIs(s: Shape, bet: nat, seen: seq<nat>, bet': nat, i: nat)
    requires InShape(s, seen)
  {
    IsTop(Frees(s, seen), FreeOf(s, bet), i) && s[seen[i]].addr == bet'
  }

  /** The best bet once the blocks `seen` were looked at: the first of them with the most
      free bytes if that has more than the old best bet, which stays otherwise. */
  ghost predicate NotedBet(s: Shape, bet: nat, seen: seq<nat>, bet': nat) {
    && InShape(s, seen)
    && if NoneAbove(Frees(s, seen), FreeOf(s, bet)) then bet' == bet else exists i: nat :: TopIs(s, bet, seen, bet', i)
  }

  lemma FreeOfAt(s: Shape, k: nat)
    requires k < |s| && forall j :: 0 <= j < |s| && s[j].addr == s[k].addr ==> j == k
    ensures FreeOf(s, s[k].addr) == FreeIn(s[k])
  {
    assert s[k].addr in BlockAddrs(s);
  }

  lemma NothingSeen(s: Shape, bet: nat)
    ensures NotedBet(s, bet, [], bet)
  {
  }

  lemma TopStep(f: seq<int>, v: int, x: int)
    ensures NoneAbove(f, v) ==> if x > v then IsTop(f + [x], v, |f|) && !NoneAbove(f + [x], v) else NoneAbove(f + [x], v)
    ensures forall i: nat :: IsTop(f, v, i) ==> IsTop(f + [x], v, if x > f[i] then |f| else i) && !NoneAbove(f + [x], v)
  {
    var g := f + [x];
    assert g[|f|] == x && forall j :: 0 <= j < |f| ==> g[j] == f[j];
  }

  /** Looking at one more block. */
  lemma BetStep(s: Shape, bet: nat, seen: seq<nat>, bet': nat, k: nat)
    requires NotedBet(s, bet, seen, bet') && k < |s| && forall i, j :: 0 <= i < j < |s| ==> s[i].addr != s[j].addr
    ensures NotedBet(s, bet, seen + [k], if FreeOf(s, bet') < FreeIn(s[k]) then s[k].addr else bet')
  {
    hide FreeIn, FreeOf, IsTop, NoneAbove;
    var all, v, f := seen + [k], FreeOf(s, bet), Frees(s, seen);
    assert all[|seen|] == k && forall i :: 0 <= i < |seen| ==> all[i] == seen[i];
    assert Frees(s, all) == f + [FreeIn(s[k])];
    TopStep(f, v, FreeIn(s[k]));
    hide Frees;
    if NoneAbove(f, v) {
      if FreeIn(s[k]) > v {
        assert TopIs(s, bet, all, s[k].addr, |seen|);
      }
    } else {
      var i: nat :| TopIs(s, bet, seen, bet', i);
      TopInside(f, v, i);
      FreesAt(s, seen, i);
      FreeOfAt(s, seen[i]);
      assert TopIs(s, bet, all, if FreeOf(s, bet') < FreeIn(s[k]) then s[k].addr else bet', if f[i] < FreeIn(s[k]) then |seen| else i);
    }
  }

  lemma TopInside(f: seq<int>, v: int, i: nat)
    requires IsTop(f, v, i)
    ensures i < |f|
  {
  }

  lemma FreesAt(s: Shape, seen: seq<nat>, i: nat)
    requires InShape(s, seen) && i < |seen|
    ensures Frees(s, seen)[i] == FreeIn(s[seen[i]])
  {
  }

  lemma NoteOne(s: Shape, bet: nat, seen: seq<nat>, bet': nat, k: nat)
    requires ShapeOk(s) && NotedBet(s, bet, seen, bet') && k < |s|
    ensures NotedBet(s, bet, seen + [k], if FreeOf(s, bet') < FreeIn(s[k]) then s[k].addr else bet')
    ensures FreeOf(s, s[k].addr) == FreeIn(s[k])
  {
    hide NotedBet, FreeOf, FreeIn;
    AddrsApart(s);
    BetStep(s, bet, seen, bet', k);
    FreeOfAt(s, k);
  }

  lemma AddrsApart(s: Shape)
    requires ShapeOk(s)
    ensures forall i, j :: 0 <= i < j < |s| ==> s[i].addr != s[j].addr
    ensures forall i :: 0 <= i < |s| ==> s[i].addr != 0
  {
    ShapeDistinct(s);
  }

  lemma FreeOfGrown(s: Shape, block: Block, bet: nat)
    requires (bet == 0 || bet in BlockAddrs(s)) && block.addr != 0
    requires forall i, j :: 0 <= i < j < |s + [block]| ==> (s + [block])[i].addr != (s + [block])[j].addr
    ensures FreeOf(s + [block], bet) == FreeOf(s, bet)
  {
    var t := s + [block];
    assert forall k :: 0 <= k < |s| ==> t[k] == s[k];
    if bet in BlockAddrs(s) {
      var k :| 0 <= k < |s| && s[k].addr == bet;
      FreeOfAt(s, k);
      FreeOfAt(t, k);
    } else {
      assert bet !in BlockAddrs(t);
    }
  }

  /** A new block does not change what was noted before. */
  lemma BetGrown(s: Shape, bet: nat, seen: seq<nat>, bet': nat, block: Block)
    requires NotedBet(s, bet, seen, bet') && (bet == 0 || bet in BlockAddrs(s))
    requires forall i, j :: 0 <= i < j < |s + [block]| ==> (s + [block])[i].addr != (s + [block])[j].addr
    requires block.addr != 0
    ensures NotedBet(s + [block], bet, seen, bet')
  {
    hide FreeIn, FreeOf, NoneAbove, IsTop;
    var t := s + [block];
    FreeOfGrown(s, block, bet);
    assert forall k :: 0 <= k < |s| ==> t[k] == s[k];
    assert Frees(t, seen) == Frees(s, seen);
    hide Frees;
    if !NoneAbove(Frees(s, seen), FreeOf(s, bet)) {
      var i: nat :| TopIs(s, bet, seen, bet', i);
      TopInside(Frees(s, seen), FreeOf(s, bet), i);
      assert TopIs(t, bet, seen, bet', i);
    }
  }

  /** The blocks that a search from `start` looks at, up to block `b`. */
  ghost function Tour(n: nat, start: nat, b: nat): seq<nat> {
    if start <= b then Range(start, b + 1) else Range(start, n) + Range(0, b + 1)
  }

  /** The blocks that a search in vain looks at. */
  ghost function FullTour(s: Shape, bet: nat, need: nat, start: nat): seq<nat> {
    (if IsBet(s, bet, need, start) then Range(start, |s|) else []) + Range(0, |s|)
  }

  // ---------- where a cell goes ----------

  ghost predicate Chosen(s: Shape, t: Shape, bet: nat, start: nat, b: nat, i: nat, req: nat, p: nat, bet': nat) {
    && StartsAt(s, bet, req + 56, start) && FirstBlock(s, start, b, req + 56) && PlacedFirst(s, t, b, i, req + 32, req, p)
    && NotedBet(s, bet, Tour(|s|, start, b), bet')
  }

  /** No block has a gap; a new one takes the cell. It is looked at for the best bet too,
      unless the last block was short of free bytes. */
  ghost predicate Renewed(s: Shape, t: Shape, bet: nat, block: Block, start: nat, req: nat, p: nat, bet': nat) {
    && StartsAt(s, bet, req + 56, start) && block.addr != 0 && (forall k :: 0 <= k < |s| ==> NoGap(s[k], req + 56))
    && PlacedHere(s + [block], t, |s|, 0, req + 32, req, p)
    && var short := s != [] && FreeIn(s[|s| - 1]) < req + 56;
       NotedBet(s + [block], bet, FullTour(s, bet, req + 56, start) + (if short then [] else [|s|]), bet')
  }

  /** Where malloc puts a cell, the first gap that the search meets or, if no block has
      any, a block of its own; and what it notes as the best bet for the next search. */
  ghost predicate FirstFit(s: Shape, t: Shape, bet: nat, block: Block, req: nat, p: nat, bet': nat) {
    || (exists start, b, i :: Chosen(s, t, bet, start, b, i, req, p, bet'))
    || (exists start :: Renewed(s, t, bet, block, start, req, p, bet'))
  }

  /** The search was in vain; the best bet is noted all the same. */
  ghost predicate InVain(s: Shape, bet: nat, req: nat, bet': nat) {
    exists start :: InVainFrom(s, bet, req, start, bet')
  }

  ghost predicate InVainFrom(s: Shape, bet: nat, req: nat, start: nat, bet': nat) {
    StartsAt(s, bet, req + 56, start) && NotedBet(s, bet, FullTour(s, bet, req + 56, start), bet')
  }

  /** A first fit allocates, and only if there is a gap or a new block. */
  lemma FirstFitAllocates(s: Shape, t: Shape, bet: nat, block: Block, req: nat, p: nat, bet': nat)
    requires FirstFit(s, t, bet, block, req, p, bet')
    ensures Allocates(s, t, block, req, p)
    ensures block.addr != 0 || exists b :: 0 <= b < |s| && !NoGap(s[b], req + 56)
  {
    hide StartsAt, FirstBlock, FirstGap, NotedBet, Tour, FullTour;
    if start, b, i :| Chosen(s, t, bet, start, b, i, req, p, bet') {
      GapTaken(s, t, b, i, req, p);
    }
  }

  lemma GapTaken(s: Shape, t: Shape, b: nat, i: nat, req: nat, p: nat)
    requires PlacedHere(s, t, b, i, req + 32, req, p)
    ensures b < |s| && !NoGap(s[b], req + 56)
  {
    assert GapEnd(s[b], i) >= GapStart(s[b], i) + (req + 56);
  }

  lemma NoRoot(s: Shape, bestBet: nat)
    requires ShapeOk(s) && BlockAddr(s, 0) == 0 && (bestBet == 0 || bestBet in BlockAddrs(s))
    ensures s == [] && bestBet == 0
  {
    assert s != [] ==> BlockOk(s[0]);
  }

  lemma FreshRoom(s: Shape, b: nat)
    requires b < |s| && s[b].cells == []
    ensures Usage(s[b]) == 24
  {
  }

  lemma FreeTooSmall(s: Shape, b: nat, need: nat)
    requires ShapeOk(s) && b < |s| && s[b].pages * 4096 - Usage(s[b]) < need
    ensures NoGap(s[b], need)
  {
    assert BlockOk(s[b]);
    forall i | 0 <= i <= |s[b].cells|
      ensures GapEnd(s[b], i) < GapStart(s[b], i) + need
    {
      GapWithinFree(s[b], i);
    }
  }

  /** A placed cell leaves no block empty. */
  lemma Occupies(s0: Shape, block: Block, s: Shape, t: Shape, b: nat, i: nat, size: nat, req: nat, p: nat)
    requires Occupied(s0) && (s == s0 || (s == s0 + [block] && b == |s0|)) && PlacedHere(s, t, b, i, size, req, p)
    ensures Occupied(t)
  {
    forall k | 0 <= k < |t|
      ensures t[k].cells != []
    {
      if k != b {
        assert t[k] == s[k] && s[k] == s0[k];
      }
    }
  }

  /** The blocks that the search has looked at before block `b`; it `begun` at the best
      bet and, unless it still is on the way from there, has been to the last block. */
  ghost function SeenSoFar(n: nat, begun: bool, startedBet: bool, start: nat, b: nat): seq<nat> {
    if begun && !startedBet then Range(start, n) + Range(0, b) else Range(start, b)
  }

  lemma RangeNext(lo: nat, hi: nat)
    requires lo <= hi
    ensures Range(lo, hi) + [hi] == Range(lo, hi + 1) && Range(lo, lo) == []
  {
  }

  lemma SeenNext(n: nat, begun: bool, startedBet: bool, start: nat, b: nat)
    requires startedBet || !begun ==> start <= b
    ensures SeenSoFar(n, begun, startedBet, start, b) + [b] == SeenSoFar(n, begun, startedBet, start, b + 1)
  {
    if begun && !startedBet {
      RangeNext(0, b);
      assert Range(start, n) + Range(0, b) + [b] == Range(start, n) + (Range(0, b) + [b]);
    } else {
      RangeNext(start, b);
    }
  }

  /** What the search found is the first fit. */
  lemma IsChosen(s: Shape, t: Shape, bet: nat, block: Block, begun: bool, startedBet: bool, start: nat, b: nat, i: nat, req: nat, p: nat, bet': nat)
    requires StartsAt(s, bet, req + 56, start) && FirstBlock(s, start, b, req + 56) && PlacedFirst(s, t, b, i, req + 32, req, p)
    requires NotedBet(s, bet, SeenSoFar(|s|, begun, startedBet, start, b) + [b], bet')
    requires (startedBet || !begun ==> start <= b) && (begun && !startedBet ==> b < start)
    ensures FirstFit(s, t, bet, block, req, p, bet')
  {
    SeenNext(|s|, begun, startedBet, start, b);
    hide StartsAt, FirstBlock, FirstGap, NotedBet, PlacedFirst;
    assert Chosen(s, t, bet, start, b, i, req, p, bet');
  }

  lemma IsRenewed(s: Shape, t: Shape, bet: nat, block: Block, begun: bool, start: nat, i: nat, req: nat, p: nat, bet': nat, short: bool)
    requires StartsAt(s, bet, req + 56, start) && block.cells == [] && block.addr != 0 && PlacedHere(s + [block], t, |s|, i, req + 32, req, p)
    requires (forall k :: 0 <= k < |s| ==> NoGap(s[k], req + 56)) && (begun <==> IsBet(s, bet, req + 56, start))
    requires short <==> s != [] && FreeIn(s[|s| - 1]) < req + 56
    requires NotedBet(s + [block], bet, SeenSoFar(|s|, begun, false, start, |s|) + (if short then [] else [|s|]), bet')
    ensures FirstFit(s, t, bet, block, req, p, bet')
  {
    SeenAll(s, bet, req + 56, start, begun);
    assert (s + [block])[|s|] == block && i == 0;
    hide NoGap, NotedBet, StartsAt, PlacedHere;
    assert Renewed(s, t, bet, block, start, req, p, bet');
  }

  lemma VainNoted(s: Shape, bet: nat, req: nat, begun: bool, start: nat, at: nat, bet': nat)
    requires StartsAt(s, bet, req + 56, start) && (begun <==> IsBet(s, bet, req + 56, start)) && at + 1 == |s| && (!begun ==> start <= at)
    requires NotedBet(s, bet, SeenSoFar(|s|, begun, false, start, at) + [at], bet')
    ensures InVain(s, bet, req, bet')
  {
    SeenNext(|s|, begun, false, start, at);
    SeenAll(s, bet, req + 56, start, begun);
    hide NotedBet, StartsAt, SeenSoFar, FullTour;
    assert InVainFrom(s, bet, req, start, bet');
  }

  lemma GrownNoted(s: Shape, block: Block, bet: nat, begun: bool, start: nat, at: nat, bet': nat)
    requires ShapeOk(s + [block]) && at + 1 == |s| && (!begun ==> start <= at)
    requires (bet == 0 || bet in BlockAddrs(s)) && (bet' == 0 || bet' in BlockAddrs(s))
    requires NotedBet(s, bet, SeenSoFar(|s|, begun, false, start, at) + [at], bet')
    ensures NotedBet(s + [block], bet, SeenSoFar(|s|, begun, false, start, |s|), bet') && FreeOf(s + [block], bet') == FreeOf(s, bet')
  {
    AddrsApart(s + [block]);
    assert (s + [block])[|s|] == block;
    SeenNext(|s|, begun, false, start, at);
    hide ShapeOk, NotedBet, FreeOf, SeenSoFar, BlockAddrs;
    BetGrown(s, bet, SeenSoFar(|s|, begun, false, start, |s|), bet', block);
    FreeOfGrown(s, block, bet');
  }

  lemma NextNoted(n: nat, begun: bool, was: bool, now: bool, start: nat, at: nat, b: nat)
    requires (was ==> begun) && (was || !begun ==> start <= at)
    requires (was && !now && b == 0 && at + 1 == n) || (was == now && b == at + 1)
    ensures SeenSoFar(n, begun, was, start, at) + [at] == SeenSoFar(n, begun, now, start, b)
  {
    SeenNext(n, begun, was, start, at);
    if was && !now {
      assert Range(start, n) + Range(0, 0) == Range(start, n);
    }
  }

  lemma SeenAll(s: Shape, bet: nat, need: nat, start: nat, begun: bool)
    requires StartsAt(s, bet, need, start) && (begun <==> IsBet(s, bet, need, start))
    ensures SeenSoFar(|s|, begun, false, start, |s|) == FullTour(s, bet, need, start)
  {
    assert [] + Range(0, |s|) == Range(0, |s|);
  }

  lemma TakenMajor(majors: map<nat, Major>, s: Shape, b: nat, i: nat)
    requires ShapeOk(s) && RepMajors(majors, s) && IsCell(s, b, i)
    ensures s[b].addr in majors && s[b].cells[i].size + 24 <= majors[s[b].addr].usage
    ensures var was := majors[s[b].addr]; var c := s[b].cells[i];
      var first := if i == 0 then CellAddr(s[b].cells, 1) else was.first;
      RepMajors(majors[s[b].addr := was.(usage := was.usage - (c.size + 24), first := first)], Taken(s, b, i))
  {
    hide ShapeOk, RepMajors, DistinctBlocks, CellAddrs, BlockAddrs;
    var t := Taken(s, b, i);
    HeaderOf(majors, s, b);
    ShapeDistinct(s);
    SumRemoved(s[b].cells, i);
    assert MajorAt(t, b).usage == Usage(s[b]) - (s[b].cells[i].size + 24);
    assert CellAddr(t[b].cells, 0) == if i == 0 then CellAddr(s[b].cells, 1) else CellAddr(s[b].cells, 0);
    hide Usage, Removed;
    MajorChanged(majors, s, t, b);
  }

  lemma TakenAddrs(s: Shape, b: nat, i: nat)
    requires IsCell(s, b, i)
    ensures BlockAddrs(Taken(s, b, i)) == BlockAddrs(s) && BlockAddr(Taken(s, b, i), 0) == BlockAddr(s, 0)
    ensures |Taken(s, b, i)| == |s| && Taken(s, b, i)[b].addr == s[b].addr
  {
    ChangedAddrs(s, Taken(s, b, i), b);
  }

  lemma TakenMarks(mem: map<nat, nat>, s: Shape, b: nat, i: nat)
    requires AllMarked(mem, s) && IsCell(s, b, i)
    ensures AllMarked(mem, Taken(s, b, i))
  {
    var t := Taken(s, b, i);
    forall k | 0 <= k < |t|
      ensures Marked(mem, t[k])
    {
      assert Marked(mem, s[k]);
      if k == b {
        assert forall j :: 0 <= j < |t[b].cells| ==> t[b].cells[j] == s[b].cells[if j < i then j else j + 1];
      }
    }
  }

  /** The neighbours of a cell are live headers, and not the cell itself. */
  lemma LinkOutSteps(minors: map<nat, Minor>, s: Shape, b: nat, i: nat)
    requires ShapeOk(s) && RepMinors(minors, s) && IsCell(s, b, i)
    ensures var left, right := CellAddr(s[b].cells, i - 1), CellAddr(s[b].cells, i + 1);
      && (left != 0 ==> left in minors) && (right != 0 ==> right in minors)
      && (left == 0 <==> i == 0) && (left != 0 && right != 0 ==> left != right)
  {
    hide ShapeOk, RepMinors, DistinctCells, DistinctBlocks;
    CellsNonNull(s, b);
    ShapeDistinct(s);
    if i > 0 {
      CellOf(minors, s, b, i - 1);
    }
    if i + 1 < |s[b].cells| {
      CellOf(minors, s, b, i + 1);
      if i > 0 {
        DifferentCells(s[b].cells, i - 1, i + 1);
      }
    }
  }

  lemma MarksWithout(mem: map<nat, nat>, s: Shape, b: nat)
    requires AllMarked(mem, s) && b < |s|
    ensures AllMarked(mem, Removed(s, b))
  {
    hide Marked;
  }

  // ---------- bytes ----------

  /** A byte of memory; memory never written holds 0. */
  function ByteAt(mem: map<nat, nat>, x: nat): nat {
    if x in mem then mem[x] else 0
  }

  /** Only the alignment byte below the new pointer was written. */
  ghost predicate OneMark(was: map<nat, nat>, mem: map<nat, nat>, p: nat) {
    p >= 16 && p - 16 in mem && mem == was[p - 16 := mem[p - 16]]
  }

  ghost predicate Copied(was: map<nat, nat>, mem: map<nat, nat>, dst: nat, src: nat, n: nat) {
    && (forall x :: x in was ==> x in mem)
    && (forall x: nat :: dst <= x < dst + n ==> ByteAt(mem, x) == ByteAt(was, src + x - dst))
    && (forall x: nat :: !(dst <= x < dst + n) ==> ByteAt(mem, x) == ByteAt(was, x))
  }

  /** Writing bytes that no alignment byte is among keeps every mark. */
  lemma MarksKept(was: map<nat, nat>, mem: map<nat, nat>, s: Shape)
    requires AllMarked(was, s) && forall x :: x in was ==> x in mem
    requires forall b: nat, i: nat :: IsCell(s, b, i) ==> ByteAt(mem, MarkAddr(s[b].cells[i].addr)) == ByteAt(was, MarkAddr(s[b].cells[i].addr))
    ensures AllMarked(mem, s)
  {
    forall b, i | 0 <= b < |s| && 0 <= i < |s[b].cells|
      ensures var a := MarkAddr(s[b].cells[i].addr); a in mem && mem[a] == Mark(s[b].cells[i].addr)
    {
      assert Marked(was, s[b]) && IsCell(s, b, i);
    }
  }

  lemma MarksResized(mem: map<nat, nat>, s: Shape, b: nat, i: nat, req: nat)
    requires AllMarked(mem, s) && IsCell(s, b, i)
    ensures AllMarked(mem, Resized(s, b, i, req))
  {
    assert Marked(mem, s[b]);
    assert Marked(mem, Resized(s, b, i, req)[b]);
  }

  /** malloc moves no cell; it adds one. */
  lemma CellsStay(s: Shape, t: Shape, block: Block, req: nat, p: nat, b: nat, i: nat) returns (j: nat, c: nat, k: nat)
    requires Allocates(s, t, block, req, p) && IsCell(s, b, i)
    ensures IsCell(t, b, j) && t[b].cells[j] == s[b].cells[i]
    ensures IsCell(t, c, k) && p == UserPtr(t[c].cells[k].addr) && t[c].cells[k].req == req && (c, k) != (b, j)
  {
    var size := req + 32;
    if exists c, k :: PlacedHere(s, t, c, k, size, req, p) {
      c, k :| PlacedHere(s, t, c, k, size, req, p);
    } else {
      c, k := |s|, 0;
    }
    j := if c == b && k <= i then i + 1 else i;
  }

  /** No alignment byte of `s` is among the `n` bytes from `lo`. */
  ghost predicate NoMarkIn(s: Shape, lo: nat, n: nat) {
    forall b: nat, i: nat :: IsCell(s, b, i) ==> !(lo <= MarkAddr(s[b].cells[i].addr) < lo + n)
  }

  lemma MarksKeptByCopy(was: map<nat, nat>, mem: map<nat, nat>, s: Shape, dst: nat, src: nat, n: nat)
    requires AllMarked(was, s) && Copied(was, mem, dst, src, n) && NoMarkIn(s, dst, n)
    ensures AllMarked(mem, s)
  {
    MarksKept(was, mem, s);
  }

  /** The copied bytes fit: behind the new pointer, away from the old bytes and from
      every alignment byte; or, without a new cell, below the heap. */
  lemma MoveRoom(s: Shape, r: nat, p: nat, len: nat, b: nat, j: nat, c: nat, k: nat)
    requires ShapeOk(s) && IsCell(s, b, j) && p == UserPtr(s[b].cells[j].addr) && len == s[b].cells[j].req
    requires r == 0 ==> forall d :: 0 <= d < |s| ==> len <= s[d].addr
    requires r != 0 ==> IsCell(s, c, k) && r == UserPtr(s[c].cells[k].addr) && len < s[c].cells[k].req && (c, k) != (b, j)
    ensures r + len <= p || p + len <= r
    ensures NoMarkIn(s, r, len) && (r != 0 ==> p > r - 16 || p + len <= r - 16)
  {
    hide ShapeOk, UserPtr;
    UserRangeInside(s, b, j);
    if r != 0 {
      UserRangeInside(s, c, k);
      CellsDisjoint(s, b, j, c, k);
      forall d: nat, e: nat | IsCell(s, d, e)
        ensures !(r <= MarkAddr(s[d].cells[e].addr) < r + len)
      {
        UserRangeInside(s, d, e);
        if (d, e) != (c, k) {
          CellsDisjoint(s, d, e, c, k);
        }
      }
    } else {
      forall d: nat, e: nat | IsCell(s, d, e)
        ensures !(r <= MarkAddr(s[d].cells[e].addr) < r + len)
      {
        UserRangeInside(s, d, e);
      }
    }
  }

  /** The `n` bytes at `p` are now at `r`; apart from those and the alignment byte
      below them, memory is as it was. */
  ghost predicate BytesMoved(was: map<nat, nat>, mem: map<nat, nat>, r: nat, p: nat, n: nat) {
    && (forall x: nat :: r <= x < r + n ==> ByteAt(mem, x) == ByteAt(was, p + x - r))
    && (forall x: nat :: !(r <= x < r + n) && x != r - 16 ==> ByteAt(mem, x) == ByteAt(was, x))
  }

  lemma MovedBytes(was: map<nat, nat>, mem1: map<nat, nat>, mem: map<nat, nat>, r: nat, p: nat, len: nat)
    requires OneMark(was, mem1, r) && Copied(mem1, mem, r, p, len) && (p > r - 16 || p + len <= r - 16)
    ensures BytesMoved(was, mem, r, p, len)
  {
    assert forall x: nat :: x != r - 16 ==> ByteAt(mem1, x) == ByteAt(was, x);
    forall x: nat | r <= x < r + len
      ensures ByteAt(mem, x) == ByteAt(was, p + x - r)
    {
      assert ByteAt(mem1, p + x - r) == ByteAt(was, p + x - r);
    }
    forall x: nat | !(r <= x < r + len) && x != r - 16
      ensures ByteAt(mem, x) == ByteAt(was, x)
    {
      assert ByteAt(mem1, x) == ByteAt(was, x);
    }
  }

  /** realloc's effect when it grows cell `i` of block `b`: malloc, then free. */
  ghost predicate Moved(s: Shape, t: Shape, bet: nat, bet': nat, block: Block, req: nat, b: nat, i: nat, r: nat)
    requires IsCell(s, b, i)
  {
    exists mid: Shape, j: nat, noted: nat :: (
      && FirstFit(s, mid, bet, block, req, r, noted) && IsCell(mid, b, j)
      && mid[b].cells[j] == s[b].cells[i] && t == Freed(mid, b, j) && BetAfterFree(mid, b, j, noted, bet'))
  }

  /** Its effect on the best bet when malloc fails. */
  ghost predicate Lost(s: Shape, bet: nat, bet': nat, req: nat, b: nat, i: nat)
    requires IsCell(s, b, i)
  {
    exists noted: nat :: InVain(s, bet, req, noted) && BetAfterFree(s, b, i, noted, bet')
  }

  /** Without its cell `i`, and without block `b` if that was its only cell. */
  function Freed(s: Shape, b: nat, i: nat): Shape
    requires IsCell(s, b, i)
  {
    if |s[b].cells| == 1 then Removed(s, b) else Taken(s, b, i)
  }

  /** The best bet after a free: the emptied block is none any more; a block that stays
      becomes it if it now has more free bytes than the old one. */
  ghost predicate BetAfterFree(s: Shape, b: nat, i: nat, bet: nat, bet': nat)
    requires IsCell(s, b, i)
  {
    if |s[b].cells| == 1 then bet' == (if bet == s[b].addr then 0 else bet)
    else bet' == if bet != 0 && FreeIn(Taken(s, b, i)[b]) > FreeOf(Taken(s, b, i), bet) then s[b].addr else bet
  }

  lemma AfterTaking(s: Shape, b: nat, i: nat)
    requires Occupied(s) && IsCell(s, b, i)
    ensures Occupied(Freed(s, b, i))
    ensures |Taken(s, b, i)| == |s| && |Taken(s, b, i)[b].cells| == |s[b].cells| - 1
    ensures |s[b].cells| == 1 ==> Freed(s, b, i) == Removed(Taken(s, b, i), b)
  {
    if |s[b].cells| == 1 {
      assert Removed(s, b) == Removed(Taken(s, b, i), b);
    }
  }

  /** The list of block headers without block `b`. */
  lemma ShrunkShape(majors: map<nat, Major>, s: Shape, b: nat)
    requires ShapeOk(s) && RepMajors(majors, s) && b < |s|
    ensures RepMajors(ShrunkMajors(majors, s, b), Removed(s, b))
    ensures BlockAddrs(Removed(s, b)) == BlockAddrs(s) - {s[b].addr}
    ensures BlockAddr(Removed(s, b), 0) == if b == 0 then BlockAddr(s, 1) else BlockAddr(s, 0)
    ensures b > 0 ==> s[0].addr != s[b].addr
    ensures var left, right := BlockAddr(s, b - 1), BlockAddr(s, b + 1);
      && (left != 0 ==> left in majors && left != s[b].addr) && (right != 0 ==> right in majors && right != s[b].addr)
      && (left != 0 && right != 0 ==> left != right)
  {
    hide Usage, InUse, Allocated, CellsOk;
    ShapeDistinct(s);
    forall k | 0 <= k < |s|
      ensures s[k].addr != 0
    {
      CellsNonNull(s, k);
    }
    MajorShrunk(majors, s, b);
    ShrunkAddrs(s, b);
    hide ShapeOk, RepMajors;
    if b > 0 {
      HeaderOf(majors, s, b - 1);
      DifferentBlocks(s, b - 1, b);
      DifferentBlocks(s, 0, b);
    }
    if b + 1 < |s| {
      HeaderOf(majors, s, b + 1);
      DifferentBlocks(s, b + 1, b);
      if b > 0 {
        DifferentBlocks(s, b - 1, b + 1);
      }
    }
  }

  class Heap {
    var majors: map<nat, Major>
    var minors: map<nat, Minor>
    var mem: map<nat, nat>       // bytes other than the headers
    var root: nat
    var bestBet: nat
    var reserved: nat            // bytes obtained from the page source
    var inUse: nat
    var warnings: nat
    var errors: nat
    const pageCount: nat
    ghost var shape: Shape

    /** Headers represent the shape, totals match it, and no pointer dangles. */
    ghost predicate Core()
      reads this
    {
      && ShapeOk(shape) && RepMajors(majors, shape) && RepMinors(minors, shape) && AllMarked(mem, shape)
      && root == BlockAddr(shape, 0) && (bestBet == 0 || bestBet in BlockAddrs(shape))
      && inUse == InUse(shape) && reserved == Allocated(shape)
    }

    ghost predicate Valid()
      reads this
    {
      Core() && Occupied(shape)
    }

    constructor (pageCount: nat)
      ensures Valid() && shape == [] && this.pageCount == pageCount
    {
      majors, minors, mem := map[], map[], map[];
      root, bestBet, reserved, inUse, warnings, errors := 0, 0, 0, 0, 0, 0;
      this.pageCount := pageCount;
      shape := [];
    }

    /** The page source hands out memory that no block uses, or nothing. */
    ghost predicate Granted(grant: nat, pages: nat)
      reads this
    {
      grant != 0 ==> forall b :: 0 <= b < |shape| ==> Apart(shape[b], Block(grant, pages, []))
    }

    // ---------- placing a cell ----------

    /** ALIGN: the user pointer, with its distance from the cell stored below it. */
    method Align(a: nat) returns (p: nat)
      modifies this`mem
      ensures p == UserPtr(a) && mem == old(mem)[MarkAddr(a) := Mark(a)]
    {
      p := a + 24 + 16;
      var diff := p % 16;
      if diff != 0 {
        diff := 16 - diff;
        p := p + diff;
      }
      mem := mem[p - 16 := diff + 16];
    }

    /** Writes a new header at `a` between `left` and `right` and counts it. */
    method Insert(ghost b: nat, ghost i: nat, maj: nat, left: nat, right: nat, a: nat, size: nat, req: nat) returns (p: nat)
      requires Core() && b < |shape| && i <= |shape[b].cells| && maj == shape[b].addr
      requires left == CellAddr(shape[b].cells, i - 1) && right == CellAddr(shape[b].cells, i)
      requires a == GapStart(shape[b], i) && a + 24 + size <= GapEnd(shape[b], i) && size == req + 32
      modifies this`majors, this`minors, this`mem, this`inUse, this`shape
      ensures Core() && shape == Placed(old(shape), b, i, Cell(a, size, req)) && p == UserPtr(a) && OneMark(old(mem), mem, p)
    {
      hide ShapeOk, RepMinors, RepMajors, AllMarked, InUse, Allocated, Usage, Placed, GapStart, GapEnd;
      ghost var c, s := Cell(a, size, req), shape;
      PlacedOk(s, b, i, c);
      LinkInRep(minors, s, b, i, c);
      MarkPlaced(mem, s, b, i, c);
      PlacedMajor(majors, s, b, i, c);
      assert BlockAddrs(Placed(s, b, i, c)) == BlockAddrs(s) && BlockAddr(Placed(s, b, i, c), 0) == BlockAddr(s, 0) by {
        PlacedAddrs(s, b, i, c);
      }
      NeighboursLive(minors, s, b, i);
      CellsNonNull(s, b);
      if left != 0 {
        minors := minors[left := minors[left].(next := a)];
      }
      if right != 0 {
        minors := minors[right := minors[right].(prev := a)];
      }
      minors := minors[a := Minor(left, right, maj, MAGIC, size, req)];
      var first := if left == 0 then a else majors[maj].first;
      majors := majors[maj := majors[maj].(usage := majors[maj].usage + size + 24, first := first)];
      inUse := inUse + size;
      p := Align(a);
      shape := Placed(s, b, i, c);
    }

    // ---------- searching a block ----------

    /** Cases 2, 3 and 4 of malloc for one block whose counters leave enough room:
        the first gap, from the front, that takes the cell. */
    method TryBlock(ghost b: nat, maj: nat, size: nat, req: nat) returns (p: nat, ghost i: nat)
      requires Core() && b < |shape| && maj == shape[b].addr && size == req + 32
      requires Usage(shape[b]) + size + 24 <= shape[b].pages * 4096
      modifies this`majors, this`minors, this`mem, this`inUse, this`shape
      ensures Core()
      ensures p == 0 ==> unchanged(this) && NoGap(old(shape)[b], size + 24) && old(shape)[b].cells != []
      ensures p != 0 ==> OneMark(old(mem), mem, p) && PlacedFirst(old(shape), shape, b, i, size, req, p)
    {
      hide ShapeOk, RepMinors, RepMajors, AllMarked, InUse, Allocated, Placed, BlockAddrs;
      HeaderOf(majors, shape, b);
      CellsNonNull(shape, b);
      var first := majors[maj].first;
      if first == 0 {
        assert shape[b].cells == [] && Usage(shape[b]) == 24;
        p := Insert(b, 0, maj, 0, 0, maj + 24, size, req);
        i := 0;
        return;
      }
      if first - maj - 24 >= size + 24 {
        p := Insert(b, 0, maj, 0, first, maj + 24, size, req);
        i := 0;
        return;
      }
      p, i := TryAfterEach(b, maj, first, size, req);
    }

    /** Case 4: the first gap behind a cell that takes the new one. */
    method TryAfterEach(ghost b: nat, maj: nat, first: nat, size: nat, req: nat) returns (p: nat, ghost i: nat)
      requires Core() && b < |shape| && maj == shape[b].addr && size == req + 32
      requires shape[b].cells != [] && first == shape[b].cells[0].addr && GapEnd(shape[b], 0) < GapStart(shape[b], 0) + size + 24
      modifies this`majors, this`minors, this`mem, this`inUse, this`shape
      ensures Core()
      ensures p == 0 ==> unchanged(this) && NoGap(old(shape)[b], size + 24)
      ensures p != 0 ==> OneMark(old(mem), mem, p) && PlacedFirst(old(shape), shape, b, i, size, req, p)
    {
      hide ShapeOk, RepMinors, RepMajors, AllMarked, InUse, Allocated, Placed, BlockAddrs;
      HeaderOf(majors, shape, b);
      CellsNonNull(shape, b);
      i := 0;
      var min := first;
      while min != 0
        invariant Core() && unchanged(this) && 0 <= i <= |shape[b].cells| && min == CellAddr(shape[b].cells, i)
        invariant forall j :: 0 <= j <= i && j <= |shape[b].cells| ==> GapEnd(shape[b], j) < GapStart(shape[b], j) + size + 24
        decreases |shape[b].cells| - i
      {
        CellOf(minors, shape, b, i);
        var here := minors[min];
        if here.next == 0 {
          if maj + majors[maj].size - min - 24 - here.size >= size + 24 {
            p := Insert(b, i + 1, maj, min, 0, min + 24 + here.size, size, req);
            i := i + 1;
            return;
          }
        }
        if here.next != 0 {
          if here.next - min - 24 - here.size >= size + 24 {
            p := Insert(b, i + 1, maj, min, here.next, min + 24 + here.size, size, req);
            i := i + 1;
            return;
          }
        }
        min := here.next;
        i := i + 1;
      }
      p := 0;
    }

    // ---------- growing ----------

    /** `allocate_new_page`, linked behind `last` (or as the first block): refused by
        the page source, or an empty block with room for the cell. */
    method Grow(last: nat, size: nat, grant: nat) returns (n: nat)
      requires Core() && last == BlockAddr(shape, |shape| - 1) && Granted(grant, PagesFor(size, pageCount))
      modifies this`majors, this`reserved, this`root, this`warnings, this`shape
      ensures Core() && n == grant
      ensures shape == if grant == 0 then old(shape) else old(shape) + [Block(grant, PagesFor(size, pageCount), [])]
    {
      hide ShapeOk, RepMajors, RepMinors, AllMarked, InUse, Allocated, Usage, BlockAddrs, DistinctBlocks, PagesFor, GrownMajors;
      var st := PagesFor(size, pageCount);
      if grant == 0 {
        warnings := warnings + 1;
        return 0;
      }
      ghost var s, block := shape, Block(grant, st, []);
      GrownShape(s, block);
      MajorGrown(majors, s, block);
      MinorsGrown(minors, s, block);
      MarksGrown(mem, s, block);
      if last != 0 {
        HeaderOf(majors, s, |s| - 1);
      }
      HeaderKeys(majors, s);
      GrownSteps(majors, s, block);
      majors := majors[grant := Major(0, 0, st, st * 4096, 24, 0)];
      reserved := reserved + st * 4096;
      if last == 0 {
        root := grant;
      } else {
        majors := majors[last := majors[last].(next := grant)];
        majors := majors[grant := majors[grant].(prev := last)];
      }
      shape := s + [block];
      n := grant;
    }

    // ---------- malloc ----------

    /** Where malloc's search from block `start` stands: at block `b`. No block before it
        has a gap, and, if the search `begun` at the best bet, none that it has met. */
    ghost predicate Searching(s0: Shape, block: Block, grown: bool, begun: bool, start: nat, b: nat, maj: nat, startedBet: bool, need: nat)
      reads this
    {
      && Core() && b < |shape| && maj == shape[b].addr
      && shape == (if grown then s0 + [block] else s0)
      && (grown ==> b == |s0| && !startedBet) && (startedBet ==> begun) && (!begun ==> start == 0)
      && (!startedBet ==> forall k :: 0 <= k < b ==> NoGap(shape[k], need))
      && (startedBet ==> start <= b && forall k :: start <= k < b ==> NoGap(shape[k], need))
      && (begun && !startedBet ==> forall k :: start <= k < |s0| ==> NoGap(s0[k], need))
    }

    /** The best bet is noted from the blocks `seen`, and `best` is its free bytes. */
    ghost predicate Noting(s: Shape, bet: nat, seen: seq<nat>, best: int)
      reads this
    {
      NotedBet(s, bet, seen, bestBet) && best == FreeOf(s, bestBet)
    }

    /** The start of the search: the best bet if it has room to spare, else the root. */
    method StartSearch(size: nat, ghost s0: Shape, ghost block: Block, ghost grown: bool)
      returns (maj: nat, startedBet: bool, bestSize: int, ghost start: nat)
      requires Core() && shape != [] && shape == (if grown then s0 + [block] else s0)
      requires grown ==> s0 == [] && bestBet == 0
      ensures maj != 0 && Searching(s0, block, grown, startedBet, start, start, maj, startedBet, size + 24)
      ensures bestSize == FreeOf(shape, bestBet)
      ensures StartsAt(shape, bestBet, size + 24, start) && (startedBet <==> IsBet(shape, bestBet, size + 24, start))
    {
      hide ShapeOk, RepMajors, RepMinors, AllMarked, InUse, Allocated, NoGap, Usage;
      CellsNonNull(shape, 0);
      maj, startedBet, bestSize, start := root, false, 0, 0;
      if bestBet != 0 {
        start :| 0 <= start < |shape| && shape[start].addr == bestBet;
        HeaderOf(majors, shape, start);
        bestSize := majors[bestBet].size - majors[bestBet].usage;
        OneBet(shape, start);
        FreeOfAt(shape, start);
        if bestSize > size + 24 {
          maj, startedBet := bestBet, true;
        } else {
          start := 0;
        }
      } else {
        NoBet(shape);
        NoFree(shape);
      }
    }

    lemma NoFree(s: Shape)
      requires forall j :: 0 <= j < |s| ==> s[j].addr != 0
      ensures FreeOf(s, 0) == 0
    {
      assert 0 !in BlockAddrs(s);
    }

    lemma OneBet(s: Shape, k: nat)
      requires ShapeOk(s) && k < |s|
      ensures forall j :: 0 <= j < |s| && s[j].addr == s[k].addr ==> j == k
    {
      ShapeDistinct(s);
    }

    lemma NoBet(s: Shape)
      requires ShapeOk(s)
      ensures forall j :: 0 <= j < |s| ==> s[j].addr != 0
    {
    }

    /** Moving on from a block without a large enough gap: to the next block, back to
        the root if the search began at the best bet, or to a new block. */
    method NextBlock(ghost b: nat, maj: nat, startedBet: bool, size: nat, grant: nat, ghost s0: Shape, ghost block: Block,
                     ghost begun: bool, ghost start: nat)
      returns (next: nat, ghost b': nat, bet: bool, grown: bool)
      requires Searching(s0, block, false, begun, start, b, maj, startedBet, size + 24) && NoGap(shape[b], size + 24)
      requires block == Block(grant, PagesFor(size, pageCount), []) && Granted(grant, block.pages)
      modifies this`majors, this`reserved, this`root, this`warnings, this`shape
      ensures next == 0 ==> Core() && grant == 0 && shape == s0 && forall k :: 0 <= k < |s0| ==> NoGap(s0[k], size + 24)
      ensures next != 0 ==> Searching(s0, block, grown, begun, start, b', next, bet, size + 24)
      ensures next != 0 ==> (
        || (grown && !startedBet && b + 1 == |s0|)
        || (!grown && startedBet && !bet && b' == 0 && b + 1 == |s0|)
        || (!grown && startedBet == bet && b' == b + 1))
      ensures next == 0 ==> !startedBet && b + 1 == |s0|
    {
      hide ShapeOk, RepMajors, RepMinors, AllMarked, InUse, Allocated, NoGap, Usage, BlockAddrs, PagesFor;
      HeaderOf(majors, shape, b);
      grown, bet, b' := false, startedBet, b + 1;
      next := majors[maj].next;
      if next != 0 {
        return;
      }
      CellsNonNull(shape, if b + 1 < |shape| then b + 1 else b);
      assert b == |shape| - 1;
      if startedBet {
        CellsNonNull(shape, 0);
        next, bet, b' := root, false, 0;
        return;
      }
      next := Grow(maj, size, grant);
      grown := next != 0;
    }

    /** One block of the search: note the best bet, and place the cell if a gap takes
        it. A new block always does; if the last block was short of space (case 1), the
        new one is filled in the same round, before it could become the best bet. */
    method Visit(ghost b: nat, maj: nat, size: nat, req: nat, best: int, fellThrough: bool, ghost startedBet: bool,
                 ghost s0: Shape, ghost block: Block, ghost grown: bool, ghost bet: nat, ghost begun: bool, ghost start: nat)
      returns (p: nat, bestSize: int, short: bool)
      requires Searching(s0, block, grown, begun, start, b, maj, startedBet, size + 24) && Occupied(s0) && size == req + 32
      requires block.cells == [] && size + 48 <= block.pages * 4096 && StartsAt(s0, bet, size + 24, start)
      requires begun <==> IsBet(s0, bet, size + 24, start)
      requires grown ==> (fellThrough <==> s0 != [] && FreeIn(s0[|s0| - 1]) < size + 24)
      requires Noting(shape, bet, SeenSoFar(|s0|, begun, startedBet, start, b), best) && (fellThrough ==> grown)
      modifies this`majors, this`minors, this`mem, this`inUse, this`shape, this`bestBet
      ensures p == 0 ==> !grown && Searching(s0, block, false, begun, start, b, maj, startedBet, size + 24) && NoGap(shape[b], size + 24)
      ensures p == 0 ==> mem == old(mem) && Noting(s0, bet, SeenSoFar(|s0|, begun, startedBet, start, b) + [b], bestSize)
      ensures p == 0 ==> (short <==> FreeIn(s0[b]) < size + 24)
      ensures p != 0 ==> Core() && Occupied(shape) && FirstFit(s0, shape, bet, block, req, p, bestBet) && OneMark(old(mem), mem, p)
    {
      hide ShapeOk, RepMajors, RepMinors, AllMarked, InUse, Allocated, BlockAddrs, NoGap, PlacedHere, Usage, Occupied, FirstFit,
        StartsAt, FirstGap, NotedBet, IsBet, SeenSoFar, FreeOf;
      HeaderOf(majors, shape, b);
      if grown {
        FreshRoom(shape, b);
      }
      ghost var before := shape;
      bestSize := best;
      var free := majors[maj].size - majors[maj].usage;
      if !fellThrough {
        NoteOne(shape, bet, SeenSoFar(|s0|, begun, startedBet, start, b), bestBet, b);
      }
      if bestSize < free && !fellThrough {
        bestBet, bestSize := maj, free;
      }
      p, short := 0, free < size + 24;
      if !short {
        ghost var i;
        CellsNonNull(shape, b);
        assert forall k :: 0 <= k < |s0| ==> shape[k] == s0[k];
        p, i := TryBlock(b, maj, size, req);
        if p != 0 {
          Occupies(s0, block, before, shape, b, i, size, req, p);
          GapTaken(before, shape, b, i, req, p);
          if grown {
            assert SeenSoFar(|s0|, begun, startedBet, start, b) + [] == SeenSoFar(|s0|, begun, startedBet, start, b);
            IsRenewed(s0, shape, bet, block, begun, start, i, req, p, bestBet, fellThrough);
          } else {
            IsChosen(s0, shape, bet, block, begun, startedBet, start, b, i, req, p, bestBet);
          }
        }
      } else {
        FreeTooSmall(shape, b, size + 24);
      }
    }

    lemma NothingToSearch(bet: nat, req: nat)
      requires bet == 0
      ensures InVain([], bet, req, bet)
    {
      NothingSeen([], bet);
      assert StartsAt([], bet, req + 56, 0);
      assert FullTour([], bet, req + 56, 0) == [];
      assert InVainFrom([], bet, req, 0, bet);
    }

    lemma StartNoting(s0: Shape, block: Block, grown: bool, begun: bool, start: nat, bet: nat, size: nat, best: int)
      requires Core() && shape == (if grown then s0 + [block] else s0) && (grown ==> s0 == [] && bet == 0)
      requires bet == bestBet && best == FreeOf(shape, bestBet)
      requires StartsAt(shape, bet, size + 24, start) && (begun <==> IsBet(shape, bet, size + 24, start))
      ensures StartsAt(s0, bet, size + 24, start) && (begun <==> IsBet(s0, bet, size + 24, start))
      ensures Noting(shape, bet, SeenSoFar(|s0|, begun, begun, start, start), best)
    {
      hide ShapeOk, RepMajors, RepMinors, AllMarked, NotedBet, FreeOf, InUse, Allocated, StartsAt, IsBet, Range;
      NoBet(shape);
      StartedBefore(s0, shape, grown, bet, size + 24, start);
      RangeNext(start, start);
      NothingSeen(shape, bet);
    }

    /** `malloc`: a cell of the requested size in the first gap that the search meets,
        in an old block or a new one. It fails exactly if no gap of any block is large
        enough and the page source refuses. The block with the most free bytes of those
        that the search looked at, if it has more than the best bet, is the new best bet. */
    method Malloc(req: nat, grant: nat) returns (p: nat)
      requires Valid() && Granted(grant, PagesFor(req + 32, pageCount))
      modifies this
      ensures Valid()
      ensures p != 0 ==> FirstFit(old(shape), shape, old(bestBet), Block(grant, PagesFor(req + 32, pageCount), []), req, p, bestBet)
      ensures p != 0 ==> Allocates(old(shape), shape, Block(grant, PagesFor(req + 32, pageCount), []), req, p)
      ensures p == 0 <==> grant == 0 && forall b :: 0 <= b < |old(shape)| ==> NoGap(old(shape)[b], req + 56)
      ensures p == 0 ==> shape == old(shape) && InVain(old(shape), old(bestBet), req, bestBet)
      ensures (p == 0 ==> mem == old(mem)) && (p != 0 ==> OneMark(old(mem), mem, p)) && errors == old(errors)
    {
      hide ShapeOk, RepMajors, RepMinors, AllMarked, InUse, Allocated, BlockAddrs, NoGap, Allocates, PagesFor, Occupied,
        FirstFit, StartsAt, IsBet, NotedBet, FreeOf, SeenSoFar, FullTour, InVain, FreeIn;
      var size := req + 32;
      ghost var s0, block := shape, Block(grant, PagesFor(size, pageCount), []);
      var grown, fellThrough := false, false;
      ghost var bet := bestBet;
      if root == 0 {
        NoRoot(shape, bestBet);
        NothingToSearch(bet, req);
        var n := Grow(0, size, grant);
        if n == 0 {
          return 0;
        }
        grown := true;
      }
      var maj, startedBet, bestSize, start := StartSearch(size, s0, block, grown);
      ghost var b, begun := start, startedBet;
      StartNoting(s0, block, grown, begun, start, bet, size, bestSize);
      while maj != 0
        invariant maj != 0 ==> Searching(s0, block, grown, begun, start, b, maj, startedBet, size + 24)
        invariant StartsAt(s0, bet, size + 24, start) && (begun <==> IsBet(s0, bet, size + 24, start)) && (fellThrough ==> grown)
        invariant grown ==> (fellThrough <==> s0 != [] && FreeIn(s0[|s0| - 1]) < size + 24)
        invariant maj != 0 ==> Noting(shape, bet, SeenSoFar(|s0|, begun, startedBet, start, b), bestSize)
        invariant mem == old(mem) && errors == old(errors)
        invariant maj == 0 ==> Core() && grant == 0 && shape == s0 && forall k :: 0 <= k < |s0| ==> NoGap(s0[k], size + 24)
        invariant maj == 0 ==> InVain(s0, bet, req, bestBet)
        decreases if maj == 0 then 0 else if grown then 1 else if startedBet then 3 else 2, |shape| - b
      {
        var short;
        p, bestSize, short := Visit(b, maj, size, req, bestSize, fellThrough, startedBet, s0, block, grown, bet, begun, start);
        if p != 0 {
          FirstFitAllocates(s0, shape, bet, block, req, p, bestBet);
          return;
        }
        ghost var at, was := b, startedBet;
        maj, b, startedBet, grown := NextBlock(b, maj, startedBet, size, grant, s0, block, begun, start);
        fellThrough := short && grown;
        if maj == 0 {
          VainNoted(s0, bet, req, begun, start, at, bestBet);
        } else if grown {
          GrownNoted(s0, block, bet, begun, start, at, bestBet);
        } else {
          NextNoted(|s0|, begun, was, startedBet, start, at, b);
        }
      }
      p := 0;
    }

    // ---------- free ----------

    /** The header that UNALIGN and the step back lead to from a user pointer. */
    function Recovered(p: nat): nat
      reads this
    {
      var diff := if p >= 16 && p - 16 in mem then mem[p - 16] else 0;
      var ptr := if diff < 32 && diff <= p then p - diff else p;
      if ptr >= 24 then ptr - 24 else 0
    }

    ghost predicate LiveAt(p: nat, b: nat, i: nat)
      reads this
    {
      IsCell(shape, b, i) && p == UserPtr(shape[b].cells[i].addr)
    }

    /** Takes the cell at `min` out of its block. */
    method Unlink(ghost b: nat, ghost i: nat, min: nat) returns (maj: nat)
      requires Core() && IsCell(shape, b, i) && min == shape[b].cells[i].addr
      modifies this`majors, this`minors, this`inUse, this`shape
      ensures Core() && shape == Taken(old(shape), b, i) && maj == shape[b].addr
    {
      hide ShapeOk, RepMajors, RepMinors, AllMarked, InUse, Allocated, BlockAddrs, Usage, Taken;
      ghost var s := shape;
      CellOf(minors, s, b, i);
      HeaderOf(majors, s, b);
      TakenOk(s, b, i);
      LinkOutRep(minors, s, b, i);
      TakenMajor(majors, s, b, i);
      TakenAddrs(s, b, i);
      TakenMarks(mem, s, b, i);
      LinkOutSteps(minors, s, b, i);
      var here := minors[min];
      maj := here.block;
      inUse := inUse - here.size;
      majors := majors[maj := majors[maj].(usage := majors[maj].usage - (here.size + 24))];
      if here.next != 0 {
        minors := minors[here.next := minors[here.next].(prev := here.prev)];
      }
      if here.prev != 0 {
        minors := minors[here.prev := minors[here.prev].(next := here.next)];
      }
      if here.prev == 0 {
        majors := majors[maj := majors[maj].(first := here.next)];
      }
      minors := minors - {min};
      assert minors == LinkOut(old(minors), s[b], i);
      assert majors == old(majors)[maj := old(majors)[maj].(usage := majors[maj].usage, first := majors[maj].first)];
      shape := Taken(s, b, i);
    }

    /** Gives an empty block back to the page source. */
    method DropBlock(ghost b: nat, maj: nat)
      requires Core() && b < |shape| && maj == shape[b].addr && shape[b].cells == []
      modifies this`majors, this`root, this`bestBet, this`reserved, this`shape
      ensures Core() && shape == Removed(old(shape), b) && bestBet == if old(bestBet) == maj then 0 else old(bestBet)
    {
      hide ShapeOk, RepMajors, RepMinors, AllMarked, InUse, Allocated, BlockAddrs, Usage, DistinctBlocks, Removed;
      ghost var s := shape;
      HeaderOf(majors, s, b);
      WithoutOk(s, b);
      ShrunkShape(majors, s, b);
      MinorsWithout(minors, s, b);
      MarksWithout(mem, s, b);
      var here := majors[maj];
      if root == maj {
        root := here.next;
      }
      if bestBet == maj {
        bestBet := 0;
      }
      if here.prev != 0 {
        majors := majors[here.prev := majors[here.prev].(next := here.next)];
      }
      if here.next != 0 {
        majors := majors[here.next := majors[here.next].(prev := here.prev)];
      }
      reserved := reserved - here.size;
      majors := majors - {maj};
      assert majors == ShrunkMajors(old(majors), s, b);
      shape := Removed(s, b);
    }

    /** The last branch of free: the block may now be the best bet. */
    method BetterBet(ghost b: nat, maj: nat)
      requires Core() && b < |shape| && maj == shape[b].addr && bestBet != 0
      modifies this`bestBet
      ensures Core() && bestBet == if FreeIn(shape[b]) > FreeOf(shape, old(bestBet)) then maj else old(bestBet)
    {
      hide ShapeOk, RepMajors, RepMinors, AllMarked, InUse, Allocated, Usage, FreeOf;
      ghost var c :| 0 <= c < |shape| && shape[c].addr == bestBet;
      HeaderOf(majors, shape, b);
      HeaderOf(majors, shape, c);
      OneBet(shape, c);
      FreeOfAt(shape, c);
      if majors[maj].size - majors[maj].usage > majors[bestBet].size - majors[bestBet].usage {
        bestBet := maj;
      }
    }

    lemma RecoveredCell(b: nat, i: nat)
      requires Core() && IsCell(shape, b, i)
      ensures Recovered(UserPtr(shape[b].cells[i].addr)) == shape[b].cells[i].addr
    {
      hide ShapeOk, RepMajors, RepMinors, InUse, Allocated;
      assert Marked(mem, shape[b]);
      var a := shape[b].cells[i].addr;
      assert MarkAddr(a) in mem && mem[MarkAddr(a)] == Mark(a);
      UnalignFindsCell(a);
    }

    /** `free`: nothing for a null pointer, an error for a pointer whose header has
        lost its magic, and otherwise exactly the cell that malloc returned this
        pointer for; its block goes back to the page source if that was its last.
        `stray` is the word read where no live header is. */
    method Free(p: nat, stray: nat, ghost b: nat, ghost i: nat)
      requires Valid()
      requires p == 0 || LiveAt(p, b, i) || (Recovered(p) !in minors && stray != MAGIC)
      modifies this
      ensures Valid() && mem == old(mem)
      ensures p == 0 ==> shape == old(shape) && errors == old(errors) && warnings == old(warnings) + 1
      ensures p != 0 && !old(LiveAt(p, b, i)) ==> shape == old(shape) && errors == old(errors) + 1
      ensures p != 0 && old(LiveAt(p, b, i)) ==> errors == old(errors) && shape == Freed(old(shape), b, i)
      ensures p != 0 && old(LiveAt(p, b, i)) ==> BetAfterFree(old(shape), b, i, old(bestBet), bestBet)
      ensures p == 0 || !old(LiveAt(p, b, i)) ==> bestBet == old(bestBet)
    {
      hide ShapeOk, RepMajors, RepMinors, AllMarked, InUse, Allocated, BlockAddrs, Usage, Removed, Occupied;
      if p == 0 {
        warnings := warnings + 1;
        return;
      }
      if LiveAt(p, b, i) {
        RecoveredCell(b, i);
        CellOf(minors, shape, b, i);
      }
      var min := Recovered(p);
      var magic := if min in minors then minors[min].magic else stray;
      if magic != MAGIC {
        errors := errors + 1;
        return;
      }
      ghost var s := shape;
      var maj := Unlink(b, i, min);
      HeaderOf(majors, shape, b);
      CellsNonNull(shape, b);
      AfterTaking(s, b, i);
      if majors[maj].first == 0 {
        DropBlock(b, maj);
      } else if bestBet != 0 {
        BetterBet(b, maj);
      }
    }

    // ---------- bytes and realloc ----------

    /** A caller's store to a byte that it asked for. */
    method Store(p: nat, k: nat, v: nat, ghost b: nat, ghost i: nat)
      requires Valid() && LiveAt(p, b, i) && k < shape[b].cells[i].req
      modifies this`mem
      ensures Valid() && mem == old(mem)[p + k := v]
    {
      hide RepMajors, RepMinors, AllMarked, InUse, Allocated, BlockAddrs, Occupied, ShapeOk, MarkAddr, UserPtr;
      mem := mem[p + k := v];
      forall c: nat, j: nat | IsCell(shape, c, j)
        ensures ByteAt(mem, MarkAddr(shape[c].cells[j].addr)) == ByteAt(old(mem), MarkAddr(shape[c].cells[j].addr))
      {
        UserRangesSafe(shape, b, i, c, j, p + k);
      }
      MarksKept(old(mem), mem, shape);
    }

    method CopyByte(dst: nat, src: nat, k: nat, ghost was: map<nat, nat>)
      requires Copied(was, mem, dst, src, k) && (dst + k < src || src + k < dst)
      modifies this`mem
      ensures Copied(was, mem, dst, src, k + 1)
    {
      ghost var before := mem;
      assert ByteAt(mem, src + k) == ByteAt(was, src + k);
      mem := mem[dst + k := ByteAt(mem, src + k)];
      assert forall x: nat :: x != dst + k ==> ByteAt(mem, x) == ByteAt(before, x);
    }

    /** liballoc_memcpy: whole words, then the rest byte by byte. */
    method CopyBytes(dst: nat, src: nat, n: nat)
      requires dst + n <= src || src + n <= dst
      modifies this`mem
      ensures Copied(old(mem), mem, dst, src, n)
    {
      var k := 0;
      while n - k >= 4
        invariant 0 <= k <= n && Copied(old(mem), mem, dst, src, k)
      {
        CopyByte(dst, src, k, old(mem));
        CopyByte(dst, src, k + 1, old(mem));
        CopyByte(dst, src, k + 2, old(mem));
        CopyByte(dst, src, k + 3, old(mem));
        k := k + 4;
      }
      while k < n
        invariant 0 <= k <= n && Copied(old(mem), mem, dst, src, k)
      {
        CopyByte(dst, src, k, old(mem));
        k := k + 1;
      }
    }

    /** The cell stays where it is and its request shrinks. */
    method Shrink(ghost b: nat, ghost i: nat, min: nat, size: nat)
      requires Valid() && IsCell(shape, b, i) && min == shape[b].cells[i].addr && size <= shape[b].cells[i].req
      modifies this`minors, this`shape
      ensures Valid() && shape == Resized(old(shape), b, i, size)
    {
      hide ShapeOk, RepMajors, RepMinors, AllMarked, InUse, Allocated, BlockAddrs;
      ResizedShape(shape, b, i, size);
      ResizedMajors(majors, shape, b, i, size);
      ResizedMinors(minors, shape, b, i, size);
      MarksResized(mem, shape, b, i, size);
      minors := minors[min := minors[min].(reqSize := size)];
      shape := Resized(shape, b, i, size);
    }

    /** Growing: a new cell, the old bytes copied into it, the old cell freed. When
        malloc fails the old cell is freed all the same, and the bytes are copied to
        address 0, where the heap must not be. */
    method Move(p: nat, len: nat, size: nat, grant: nat, stray: nat, ghost b: nat, ghost i: nat) returns (r: nat)
      requires Valid() && Granted(grant, PagesFor(size + 32, pageCount)) && LiveAt(p, b, i)
      requires len == shape[b].cells[i].req < size
      requires grant == 0 ==> forall d :: 0 <= d < |shape| ==> len <= shape[d].addr
      modifies this
      ensures Valid() && errors == old(errors)
      ensures r == 0 <==> grant == 0 && forall d :: 0 <= d < |old(shape)| ==> NoGap(old(shape)[d], size + 56)
      ensures r == 0 ==> shape == Freed(old(shape), b, i) && Lost(old(shape), old(bestBet), bestBet, size, b, i)
      ensures r != 0 ==> Moved(old(shape), shape, old(bestBet), bestBet, Block(grant, PagesFor(size + 32, pageCount), []), size, b, i, r)
      ensures r != 0 ==> BytesMoved(old(mem), mem, r, p, len)
    {
      hide ShapeOk, RepMajors, RepMinors, AllMarked, InUse, Allocated, BlockAddrs, Allocates, PagesFor, Occupied, NoGap, Freed,
        Copied, UserPtr, MarkAddr, FirstFit, InVain, BetAfterFree;
      ghost var s, block := shape, Block(grant, PagesFor(size + 32, pageCount), []);
      r := Malloc(size, grant);
      ghost var j, c, k := i, b, i;
      if r != 0 {
        j, c, k := CellsStay(s, shape, block, size, r, b, i);
      }
      ghost var mid, mem1, noted := shape, mem, bestBet;
      MoveRoom(mid, r, p, len, b, j, c, k);
      CopyBytes(r, p, len);
      MarksKeptByCopy(mem1, mem, mid, r, p, len);
      ghost var mem2 := mem;
      Free(p, stray, b, j);
      if r != 0 {
        assert Moved(s, shape, old(bestBet), bestBet, block, size, b, i, r);
        MovedBytes(old(mem), mem1, mem2, r, p, len);
      }
    }

    /** `realloc`: free for size 0, malloc for a null pointer, an error for a pointer
        without a live header, the same cell for a request it already covers, and
        otherwise a larger cell with the old bytes. */
    method Realloc(p: nat, size: nat, grant: nat, stray: nat, ghost b: nat, ghost i: nat) returns (r: nat)
      requires Valid() && Granted(grant, PagesFor(size + 32, pageCount))
      requires p == 0 || LiveAt(p, b, i) || (Recovered(p) !in minors && stray != MAGIC)
      requires p != 0 && LiveAt(p, b, i) && grant == 0 ==> forall d :: 0 <= d < |shape| ==> shape[b].cells[i].req <= shape[d].addr
      modifies this
      ensures Valid()
      ensures p == 0 && size == 0 ==> r == 0 && shape == old(shape)
      ensures p == 0 && size != 0 && r != 0 ==> Allocates(old(shape), shape, Block(grant, PagesFor(size + 32, pageCount), []), size, r)
      ensures p == 0 && size != 0 && r != 0 ==>
        FirstFit(old(shape), shape, old(bestBet), Block(grant, PagesFor(size + 32, pageCount), []), size, r, bestBet)
      ensures p == 0 && size != 0 && r == 0 ==> shape == old(shape) && InVain(old(shape), old(bestBet), size, bestBet)
      ensures p != 0 && old(LiveAt(p, b, i)) && size == 0 ==> BetAfterFree(old(shape), b, i, old(bestBet), bestBet)
      ensures size != 0 && (p == 0 || old(LiveAt(p, b, i) && size > shape[b].cells[i].req)) ==>
        (r == 0 <==> grant == 0 && forall d :: 0 <= d < |old(shape)| ==> NoGap(old(shape)[d], size + 56))
      ensures p != 0 && !old(LiveAt(p, b, i)) ==> r == 0 && shape == old(shape) && errors == old(errors) + 1
      ensures p != 0 && old(LiveAt(p, b, i)) ==> errors == old(errors)
      ensures p != 0 && old(LiveAt(p, b, i)) && size == 0 ==> r == 0 && shape == Freed(old(shape), b, i)
      ensures p != 0 && old(LiveAt(p, b, i) && 0 < size <= shape[b].cells[i].req) ==>
        r == p && mem == old(mem) && shape == Resized(old(shape), b, i, size)
      ensures p != 0 && old(LiveAt(p, b, i) && size > shape[b].cells[i].req) && r == 0 ==>
        shape == Freed(old(shape), b, i) && Lost(old(shape), old(bestBet), bestBet, size, b, i)
      ensures p != 0 && old(LiveAt(p, b, i) && size > shape[b].cells[i].req) && r != 0 ==>
        && Moved(old(shape), shape, old(bestBet), bestBet, Block(grant, PagesFor(size + 32, pageCount), []), size, b, i, r)
        && BytesMoved(old(mem), mem, r, p, old(shape)[b].cells[i].req)
    {
      hide ShapeOk, RepMajors, RepMinors, AllMarked, InUse, Allocated, BlockAddrs, Allocates, PagesFor, Occupied, NoGap, Freed,
        Moved, BytesMoved, FirstFit, InVain, BetAfterFree;
      if size == 0 {
        Free(p, stray, b, i);
        return 0;
      }
      if p == 0 {
        r := Malloc(size, grant);
        return;
      }
      if LiveAt(p, b, i) {
        RecoveredCell(b, i);
        CellOf(minors, shape, b, i);
      }
      var min := Recovered(p);
      var magic := if min in minors then minors[min].magic else stray;
      if magic != MAGIC {
        errors := errors + 1;
        return 0;
      }
      var len := minors[min].reqSize;
      if len >= size {
        Shrink(b, i, min, size);
        return p;
      }
      r := Move(p, len, size, grant, stray, b, i);
    }
  }
}
