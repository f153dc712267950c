/** How the heap's headers, linked both ways through memory, represent its shape. */
module HeapLinks {
  import opened HeapShape

  const MAGIC: nat := 0xC001_C0DE

  /** `liballoc_major` and `liballoc_minor`; a null pointer is 0. */
  datatype Major = Major(prev: nat, next: nat, pages: nat, size: nat, usage: nat, first: nat)
  datatype Minor = Minor(prev: nat, next: nat, block: nat, magic: nat, size: nat, reqSize: nat)

  function BlockAddr(s: Shape, b: int): nat {
    if 0 <= b < |s| then s[b].addr else 0
  }

  function CellAddr(cells: seq<Cell>, i: int): nat {
    if 0 <= i < |cells| then cells[i].addr else 0
  }

  function MajorAt(s: Shape, b: nat): Major
    requires b < |s|
  {
    Major(BlockAddr(s, b - 1), BlockAddr(s, b + 1), s[b].pages, s[b].pages * 4096, Usage(s[b]), CellAddr(s[b].cells, 0))
  }

  function MinorAt(b: Block, i: nat): Minor
    requires i < |b.cells|
  {
    Minor(CellAddr(b.cells, i - 1), CellAddr(b.cells, i + 1), b.addr, MAGIC, b.cells[i].size, b.cells[i].req)
  }

  ghost function BlockAddrs(s: Shape): set<nat> {
    set b | 0 <= b < |s| :: s[b].addr
  }

  ghost function CellAddrs(b: Block): set<nat> {
    set i | 0 <= i < |b.cells| :: b.cells[i].addr
  }

  ghost predicate RepMajors(majors: map<nat, Major>, s: Shape) {
    && majors.Keys == BlockAddrs(s)
    && forall b {:trigger MajorAt(s, b)} :: 0 <= b < |s| ==> majors[s[b].addr] == MajorAt(s, b)
  }

  /** The cell headers of one block. */
  ghost predicate RepBlock(minors: map<nat, Minor>, b: Block) {
    forall i {:trigger MinorAt(b, i)} :: 0 <= i < |b.cells| ==> b.cells[i].addr in minors && minors[b.cells[i].addr] == MinorAt(b, i)
  }

  ghost predicate RepMinors(minors: map<nat, Minor>, s: Shape) {
    && (forall b :: 0 <= b < |s| ==> RepBlock(minors, s[b]))
    && (forall a :: a in minors ==> exists b :: 0 <= b < |s| && a in CellAddrs(s[b]))
  }

  // ---------- addresses tell cells apart ----------

  ghost predicate DistinctCells(cells: seq<Cell>) {
    forall i, j :: 0 <= i < j < |cells| ==> cells[i].addr != cells[j].addr
  }

  ghost predicate DistinctBlocks(s: Shape) {
    forall b, c :: 0 <= b < c < |s| ==> s[b].addr != s[c].addr && CellAddrs(s[b]) !! CellAddrs(s[c])
  }

  lemma ShapeDistinct(s: Shape)
    requires ShapeOk(s)
    ensures DistinctBlocks(s) && forall b :: 0 <= b < |s| ==> DistinctCells(s[b].cells)
  {
    forall b, c | 0 <= b < c < |s|
      ensures s[b].addr != s[c].addr && CellAddrs(s[b]) !! CellAddrs(s[c])
    {
      assert Apart(s[b], s[c]);
      assert BlockOk(s[b]) && BlockOk(s[c]);
    }
  }

  lemma CellsNonNull(s: Shape, b: nat)
    requires ShapeOk(s) && b < |s|
    ensures s[b].addr != 0 && forall k :: 0 <= k < |s[b].cells| ==> s[b].cells[k].addr != 0
  {
  }

  // ---------- linking a cell in ----------

  /** Setting a link of a header, if there is one. */
  function WithNext(minors: map<nat, Minor>, a: nat, next: nat): map<nat, Minor> {
    if a != 0 && a in minors then minors[a := minors[a].(next := next)] else minors
  }

  function WithPrev(minors: map<nat, Minor>, a: nat, prev: nat): map<nat, Minor> {
    if a != 0 && a in minors then minors[a := minors[a].(prev := prev)] else minors
  }

  /** The new header, and the links of its neighbours to it. */
  function LinkIn(minors: map<nat, Minor>, b: Block, i: nat, c: Cell): map<nat, Minor> {
    var left, right := CellAddr(b.cells, i - 1), CellAddr(b.cells, i);
    WithPrev(WithNext(minors, left, c.addr), right, c.addr)[c.addr := Minor(left, right, b.addr, MAGIC, c.size, c.req)]
  }

  lemma DifferentCells(cells: seq<Cell>, i: int, j: int)
    requires DistinctCells(cells) && 0 <= i < |cells| && 0 <= j < |cells| && i != j
    ensures cells[i].addr != cells[j].addr
  {
    if i < j {
      assert cells[i].addr != cells[j].addr;
    } else {
      assert cells[j].addr != cells[i].addr;
    }
  }

  function Relinked(m: Minor, left: bool, right: bool, a: nat): Minor {
    var n := if left then m.(next := a) else m;
    if right then n.(prev := a) else n
  }

  lemma LinkInAt(minors: map<nat, Minor>, b: Block, i: nat, c: Cell, a: nat)
    requires a in minors && a != 0 && a != c.addr
    ensures a in LinkIn(minors, b, i, c)
    ensures LinkIn(minors, b, i, c)[a]
         == Relinked(minors[a], a == CellAddr(b.cells, i - 1), a == CellAddr(b.cells, i), c.addr)
  {
  }

  /** One cell of the changed block; only the two neighbours of the new one differ. */
  lemma LinkInCell(minors: map<nat, Minor>, b: Block, i: nat, c: Cell, j: nat)
    requires RepBlock(minors, b) && i <= |b.cells| && DistinctCells(Inserted(b.cells, i, c)) && j < |b.cells|
    requires forall k :: 0 <= k < |b.cells| ==> b.cells[k].addr != 0
    ensures var m, b' := LinkIn(minors, b, i, c), b.(cells := Inserted(b.cells, i, c));
      var a := b.cells[j].addr;
      a in m && m[a] == MinorAt(b', if j < i then j else j + 1)
  {
    var cells, cells' := b.cells, Inserted(b.cells, i, c);
    var j' := if j < i then j else j + 1;
    assert cells'[i] == c && cells'[j'] == cells[j];
    DifferentCells(cells', j', i);
    if 0 <= i - 1 != j {
      assert cells'[i - 1] == cells[i - 1];
      DifferentCells(cells', j', i - 1);
    }
    if i < |cells| && i != j {
      assert cells'[i + 1] == cells[i];
      DifferentCells(cells', j', i + 1);
    }
    var own := MinorAt(b, j);
    LinkInAt(minors, b, i, c, cells[j].addr);
    hide DistinctCells, LinkIn;
  }

  lemma LinkInBlock(minors: map<nat, Minor>, b: Block, i: nat, c: Cell)
    requires RepBlock(minors, b) && i <= |b.cells| && DistinctCells(Inserted(b.cells, i, c))
    requires forall k :: 0 <= k < |b.cells| ==> b.cells[k].addr != 0
    ensures RepBlock(LinkIn(minors, b, i, c), b.(cells := Inserted(b.cells, i, c)))
  {
    var m, b' := LinkIn(minors, b, i, c), b.(cells := Inserted(b.cells, i, c));
    assert b'.cells[i] == c && m[c.addr] == MinorAt(b', i);
    hide DistinctCells, LinkIn;
    forall j | 0 <= j <= |b.cells|
      ensures b'.cells[j].addr in m && m[b'.cells[j].addr] == MinorAt(b', j)
    {
      if j < i {
        LinkInCell(minors, b, i, c, j);
      } else if j > i {
        LinkInCell(minors, b, i, c, j - 1);
      }
    }
  }

  lemma LinkInOther(minors: map<nat, Minor>, b: Block, i: nat, c: Cell, o: Block)
    requires RepBlock(minors, b) && RepBlock(minors, o) && i <= |b.cells|
    requires CellAddrs(o) !! CellAddrs(b.(cells := Inserted(b.cells, i, c)))
    ensures RepBlock(LinkIn(minors, b, i, c), o)
  {
    var b' := b.(cells := Inserted(b.cells, i, c));
    assert c.addr in CellAddrs(b') by { assert b'.cells[i] == c; }
    assert i > 0 ==> b.cells[i - 1].addr in CellAddrs(b') by { if i > 0 { assert b'.cells[i - 1] == b.cells[i - 1]; } }
    assert i < |b.cells| ==> b.cells[i].addr in CellAddrs(b') by { if i < |b.cells| { assert b'.cells[i + 1] == b.cells[i]; } }
    forall j | 0 <= j < |o.cells|
      ensures o.cells[j].addr in LinkIn(minors, b, i, c) && LinkIn(minors, b, i, c)[o.cells[j].addr] == MinorAt(o, j)
    {
      var own := MinorAt(o, j);
      assert o.cells[j].addr in CellAddrs(o);
    }
  }

  lemma LinkInRep(minors: map<nat, Minor>, s: Shape, b: nat, i: nat, c: Cell)
    requires b < |s| && i <= |s[b].cells|
    requires ShapeOk(Placed(s, b, i, c)) && RepMinors(minors, s) && ShapeOk(s)
    ensures RepMinors(LinkIn(minors, s[b], i, c), Placed(s, b, i, c))
  {
    hide ShapeOk, LinkIn, CellAddrs, DistinctCells, RepBlock, Inserted;
    var t := Placed(s, b, i, c);
    ShapeDistinct(t);
    CellsNonNull(s, b);
    forall k | 0 <= k < |t|
      ensures RepBlock(LinkIn(minors, s[b], i, c), t[k])
    {
      if k == b {
        assert t[b].cells == Inserted(s[b].cells, i, c);
        LinkInBlock(minors, s[b], i, c);
      } else {
        assert t[k] == s[k];
        assert CellAddrs(t[k]) !! CellAddrs(t[b]);
        LinkInOther(minors, s[b], i, c, s[k]);
      }
    }
    LinkInDomain(minors, s, b, i, c);
  }

  lemma LinkInDomain(minors: map<nat, Minor>, s: Shape, b: nat, i: nat, c: Cell)
    requires b < |s| && i <= |s[b].cells| && RepMinors(minors, s)
    ensures var t := Placed(s, b, i, c);
      forall a :: a in LinkIn(minors, s[b], i, c) ==> exists k :: 0 <= k < |t| && a in CellAddrs(t[k])
  {
    var t := Placed(s, b, i, c);
    InsertedAddrs(s[b], i, c);
    forall a | a in LinkIn(minors, s[b], i, c)
      ensures exists k :: 0 <= k < |t| && a in CellAddrs(t[k])
    {
      if a == c.addr {
        assert a in CellAddrs(t[b]);
      } else {
        var k :| 0 <= k < |s| && a in CellAddrs(s[k]);
        assert a in CellAddrs(t[k]);
      }
    }
  }

  lemma InsertedAddrs(b: Block, i: nat, c: Cell)
    requires i <= |b.cells|
    ensures CellAddrs(b.(cells := Inserted(b.cells, i, c))) == CellAddrs(b) + {c.addr}
  {
    var b' := b.(cells := Inserted(b.cells, i, c));
    assert b'.cells[i] == c;
    forall k | 0 <= k < |b.cells|
      ensures b.cells[k].addr in CellAddrs(b')
    {
      assert b'.cells[if k < i then k else k + 1] == b.cells[k];
    }
  }

  // ---------- linking a cell out ----------

  function LinkOut(minors: map<nat, Minor>, b: Block, i: nat): map<nat, Minor>
    requires i < |b.cells|
  {
    var left, right := CellAddr(b.cells, i - 1), CellAddr(b.cells, i + 1);
    WithNext(WithPrev(minors, right, left), left, right) - {b.cells[i].addr}
  }

  lemma LinkOutAt(minors: map<nat, Minor>, b: Block, i: nat, a: nat)
    requires i < |b.cells| && a in minors && a != 0 && a != b.cells[i].addr
    ensures a in LinkOut(minors, b, i)
    ensures var left, right := CellAddr(b.cells, i - 1), CellAddr(b.cells, i + 1);
      && LinkOut(minors, b, i)[a].next == (if a == left then right else minors[a].next)
      && LinkOut(minors, b, i)[a].prev == (if a == right then left else minors[a].prev)
      && LinkOut(minors, b, i)[a].(next := minors[a].next, prev := minors[a].prev) == minors[a]
  {
  }

  lemma LinkOutCell(minors: map<nat, Minor>, b: Block, i: nat, j: nat)
    requires RepBlock(minors, b) && i < |b.cells| && j < |b.cells| && j != i && DistinctCells(b.cells)
    requires forall k :: 0 <= k < |b.cells| ==> b.cells[k].addr != 0
    ensures var m, b' := LinkOut(minors, b, i), b.(cells := Removed(b.cells, i));
      var a := b.cells[j].addr;
      a in m && m[a] == MinorAt(b', if j < i then j else j - 1)
  {
    var cells, cells' := b.cells, Removed(b.cells, i);
    DifferentCells(cells, j, i);
    if 0 <= i - 1 != j {
      DifferentCells(cells, j, i - 1);
    }
    if i + 1 < |cells| && i + 1 != j {
      DifferentCells(cells, j, i + 1);
    }
    var own := MinorAt(b, j);
    LinkOutAt(minors, b, i, cells[j].addr);
    hide DistinctCells, LinkOut;
    assert forall k :: 0 <= k < i ==> cells'[k] == cells[k];
    assert forall k :: i <= k < |cells'| ==> cells'[k] == cells[k + 1];
  }

  lemma LinkOutBlock(minors: map<nat, Minor>, b: Block, i: nat)
    requires RepBlock(minors, b) && i < |b.cells| && DistinctCells(b.cells)
    requires forall k :: 0 <= k < |b.cells| ==> b.cells[k].addr != 0
    ensures RepBlock(LinkOut(minors, b, i), b.(cells := Removed(b.cells, i)))
  {
    var m, b' := LinkOut(minors, b, i), b.(cells := Removed(b.cells, i));
    hide DistinctCells, LinkOut;
    forall j | 0 <= j < |b'.cells|
      ensures b'.cells[j].addr in m && m[b'.cells[j].addr] == MinorAt(b', j)
    {
      if j < i {
        LinkOutCell(minors, b, i, j);
      } else {
        LinkOutCell(minors, b, i, j + 1);
      }
    }
  }

  lemma LinkOutOther(minors: map<nat, Minor>, b: Block, i: nat, o: Block)
    requires RepBlock(minors, o) && i < |b.cells| && CellAddrs(o) !! CellAddrs(b)
    ensures RepBlock(LinkOut(minors, b, i), o)
  {
    assert b.cells[i].addr in CellAddrs(b);
    assert i > 0 ==> b.cells[i - 1].addr in CellAddrs(b);
    assert i + 1 < |b.cells| ==> b.cells[i + 1].addr in CellAddrs(b);
    forall j | 0 <= j < |o.cells|
      ensures o.cells[j].addr in LinkOut(minors, b, i) && LinkOut(minors, b, i)[o.cells[j].addr] == MinorAt(o, j)
    {
      var own := MinorAt(o, j);
      assert o.cells[j].addr in CellAddrs(o);
    }
  }

  lemma LinkOutDomain(minors: map<nat, Minor>, s: Shape, b: nat, i: nat)
    requires b < |s| && i < |s[b].cells| && RepMinors(minors, s)
    ensures var t := Taken(s, b, i);
      forall a :: a in LinkOut(minors, s[b], i) ==> exists k :: 0 <= k < |t| && a in CellAddrs(t[k])
  {
    var t := Taken(s, b, i);
    forall a | a in LinkOut(minors, s[b], i)
      ensures exists k :: 0 <= k < |t| && a in CellAddrs(t[k])
    {
      assert a in minors && a != s[b].cells[i].addr;
      var k :| 0 <= k < |s| && a in CellAddrs(s[k]);
      if k == b {
        var j :| 0 <= j < |s[b].cells| && s[b].cells[j].addr == a;
        assert t[b].cells[if j < i then j else j - 1] == s[b].cells[j];
      }
      assert a in CellAddrs(t[k]);
    }
  }

  lemma LinkOutRep(minors: map<nat, Minor>, s: Shape, b: nat, i: nat)
    requires b < |s| && i < |s[b].cells| && ShapeOk(s) && RepMinors(minors, s)
    ensures RepMinors(LinkOut(minors, s[b], i), Taken(s, b, i))
  {
    hide ShapeOk, LinkOut, CellAddrs, DistinctCells, RepBlock, Removed;
    var t := Taken(s, b, i);
    ShapeDistinct(s);
    CellsNonNull(s, b);
    forall k | 0 <= k < |t|
      ensures RepBlock(LinkOut(minors, s[b], i), t[k])
    {
      if k == b {
        LinkOutBlock(minors, s[b], i);
      } else {
        assert CellAddrs(s[k]) !! CellAddrs(s[b]);
        LinkOutOther(minors, s[b], i, s[k]);
      }
    }
    LinkOutDomain(minors, s, b, i);
  }

  // ---------- block headers ----------

  lemma SameAddrs(s: Shape, t: Shape)
    requires |s| == |t| && forall k :: 0 <= k < |s| ==> s[k].addr == t[k].addr
    ensures BlockAddrs(s) == BlockAddrs(t)
  {
    forall k | 0 <= k < |s|
      ensures s[k].addr in BlockAddrs(t) && t[k].addr in BlockAddrs(s)
    {
      assert s[k].addr == t[k].addr;
    }
  }

  lemma DifferentBlocks(s: Shape, b: int, c: int)
    requires DistinctBlocks(s) && 0 <= b < |s| && 0 <= c < |s| && b != c
    ensures s[b].addr != s[c].addr
  {
    if b < c {
      assert s[b].addr != s[c].addr;
    } else {
      assert s[c].addr != s[b].addr;
    }
  }

  lemma MajorChangedAt(majors: map<nat, Major>, s: Shape, t: Shape, b: nat, k: nat)
    requires RepMajors(majors, s) && DistinctBlocks(s) && |s| == |t| && b < |s| && k < |s| && k != b
    requires t == s[b := t[b]] && t[b].addr == s[b].addr
    ensures s[k].addr != s[b].addr && majors[s[k].addr] == MajorAt(t, k)
  {
    hide Usage, CellAddrs;
    DifferentBlocks(s, k, b);
    hide DistinctBlocks;
    var own := MajorAt(s, k);
    assert t[k] == s[k] && BlockAddr(t, k - 1) == BlockAddr(s, k - 1) && BlockAddr(t, k + 1) == BlockAddr(s, k + 1);
  }

  /** Only the header of the changed block changes. */
  lemma MajorChanged(majors: map<nat, Major>, s: Shape, t: Shape, b: nat)
    requires RepMajors(majors, s) && DistinctBlocks(s) && |s| == |t| && b < |s| && t == s[b := t[b]] && t[b].addr == s[b].addr
    ensures RepMajors(majors[s[b].addr := MajorAt(t, b)], t)
  {
    hide MajorAt, CellAddrs, DistinctBlocks;
    SameAddrs(s, t);
    assert s[b].addr in BlockAddrs(s);
    forall k | 0 <= k < |t|
      ensures majors[s[b].addr := MajorAt(t, b)][t[k].addr] == MajorAt(t, k)
    {
      if k != b {
        MajorChangedAt(majors, s, t, b, k);
      }
    }
  }

  function WithNextBlock(majors: map<nat, Major>, a: nat, next: nat): map<nat, Major> {
    if a != 0 && a in majors then majors[a := majors[a].(next := next)] else majors
  }

  function WithPrevBlock(majors: map<nat, Major>, a: nat, prev: nat): map<nat, Major> {
    if a != 0 && a in majors then majors[a := majors[a].(prev := prev)] else majors
  }

  /** The block headers once `n` follows the last block. */
  function GrownMajors(majors: map<nat, Major>, s: Shape, n: Block): map<nat, Major> {
    var last := BlockAddr(s, |s| - 1);
    WithNextBlock(majors, last, n.addr)[n.addr := Major(last, 0, n.pages, n.pages * 4096, 24, 0)]
  }

  lemma GrownMajorAt(majors: map<nat, Major>, s: Shape, n: Block, k: nat)
    requires RepMajors(majors, s) && DistinctBlocks(s + [n]) && k < |s| && s[k].addr != 0
    ensures s[k].addr in GrownMajors(majors, s, n) && GrownMajors(majors, s, n)[s[k].addr] == MajorAt(s + [n], k)
  {
    hide CellAddrs, Usage;
    var t := s + [n];
    DifferentBlocks(t, k, |s|);
    if k < |s| - 1 {
      DifferentBlocks(t, k, |s| - 1);
    }
    hide DistinctBlocks;
    var own := MajorAt(s, k);
    assert s[k].addr in BlockAddrs(s);
  }

  /** A new block at the end of the list. */
  lemma MajorGrown(majors: map<nat, Major>, s: Shape, n: Block)
    requires RepMajors(majors, s) && DistinctBlocks(s + [n]) && n.cells == []
    requires forall k :: 0 <= k < |s| ==> s[k].addr != 0
    ensures RepMajors(GrownMajors(majors, s, n), s + [n])
  {
    var t, m := s + [n], GrownMajors(majors, s, n);
    assert m[n.addr] == MajorAt(t, |s|);
    GrownAddrs(s, n);
    assert m.Keys == majors.Keys + {n.addr};
    hide GrownMajors, DistinctBlocks;
    forall k | 0 <= k < |t|
      ensures m[t[k].addr] == MajorAt(t, k)
    {
      if k < |s| {
        GrownMajorAt(majors, s, n, k);
      }
    }
  }

  lemma GrownAddrs(s: Shape, n: Block)
    ensures BlockAddrs(s + [n]) == BlockAddrs(s) + {n.addr}
  {
    var t := s + [n];
    assert t[|s|].addr in BlockAddrs(t);
    forall k | 0 <= k < |s|
      ensures s[k].addr in BlockAddrs(t)
    {
      assert t[k] == s[k];
    }
  }

  /** The block headers once block `b` has left the list. */
  function ShrunkMajors(majors: map<nat, Major>, s: Shape, b: nat): map<nat, Major>
    requires b < |s|
  {
    var left, right := BlockAddr(s, b - 1), BlockAddr(s, b + 1);
    WithPrevBlock(WithNextBlock(majors, left, right), right, left) - {s[b].addr}
  }

  lemma ShrunkAt(majors: map<nat, Major>, s: Shape, b: nat, a: nat)
    requires b < |s| && a in majors && a != 0 && a != s[b].addr
    ensures var m := ShrunkMajors(majors, s, b); var left, right := BlockAddr(s, b - 1), BlockAddr(s, b + 1);
      && a in m && m[a].(next := majors[a].next, prev := majors[a].prev) == majors[a]
      && m[a].next == (if a == left then right else majors[a].next)
      && m[a].prev == (if a == right then left else majors[a].prev)
  {
  }

  lemma ShrunkMajorAt(majors: map<nat, Major>, s: Shape, b: nat, k: nat)
    requires RepMajors(majors, s) && DistinctBlocks(s) && b < |s| && k < |s| && k != b && s[k].addr != 0
    ensures var m := ShrunkMajors(majors, s, b);
      s[k].addr in m && m[s[k].addr] == MajorAt(Removed(s, b), if k < b then k else k - 1)
  {
    hide CellAddrs, Usage, ShrunkMajors;
    DifferentBlocks(s, k, b);
    if 0 <= b - 1 != k {
      DifferentBlocks(s, k, b - 1);
    }
    if b + 1 < |s| && b + 1 != k {
      DifferentBlocks(s, k, b + 1);
    }
    hide DistinctBlocks;
    var own := MajorAt(s, k);
    assert s[k].addr in BlockAddrs(s);
    ShrunkAt(majors, s, b, s[k].addr);
    var j := if k < b then k else k - 1;
    RemovedAddr(s, b, j - 1);
    RemovedAddr(s, b, j);
    RemovedAddr(s, b, j + 1);
    hide Removed;
  }

  /** The blocks that are left, in their new places. */
  lemma RemovedAddr(s: Shape, b: nat, j: int)
    requires b < |s|
    ensures var t := Removed(s, b);
      && BlockAddr(t, j) == BlockAddr(s, if j < b then j else j + 1)
      && (0 <= j < |t| ==> t[j] == s[if j < b then j else j + 1])
  {
  }

  /** A block leaving the list. */
  lemma MajorShrunk(majors: map<nat, Major>, s: Shape, b: nat)
    requires RepMajors(majors, s) && DistinctBlocks(s) && b < |s|
    requires forall k :: 0 <= k < |s| ==> s[k].addr != 0
    ensures RepMajors(ShrunkMajors(majors, s, b), Removed(s, b))
  {
    hide ShrunkMajors, DistinctBlocks, BlockAddrs, MajorAt, Removed;
    var t, m := Removed(s, b), ShrunkMajors(majors, s, b);
    ShrunkAddrs(s, b);
    ShrunkKeys(majors, s, b);
    forall k | 0 <= k < |t|
      ensures t[k].addr in m && m[t[k].addr] == MajorAt(t, k)
    {
      RemovedAddr(s, b, k);
      ShrunkMajorAt(majors, s, b, if k < b then k else k + 1);
    }
  }

  lemma ShrunkKeys(majors: map<nat, Major>, s: Shape, b: nat)
    requires b < |s| && majors.Keys == BlockAddrs(s) && forall k :: 0 <= k < |s| ==> s[k].addr != 0
    ensures ShrunkMajors(majors, s, b).Keys == majors.Keys - {s[b].addr}
  {
  }

  lemma ShrunkAddrs(s: Shape, b: nat)
    requires DistinctBlocks(s) && b < |s|
    ensures BlockAddrs(Removed(s, b)) == BlockAddrs(s) - {s[b].addr}
  {
    var t := Removed(s, b);
    forall k | 0 <= k < |s| && k != b
      ensures s[k].addr in BlockAddrs(t) && s[k].addr != s[b].addr
    {
      DifferentBlocks(s, k, b);
      assert t[if k < b then k else k - 1] == s[k];
    }
    forall k | 0 <= k < |t|
      ensures t[k].addr in BlockAddrs(s) - {s[b].addr}
    {
      assert t[k] == s[if k < b then k else k + 1];
      DifferentBlocks(s, if k < b then k else k + 1, b);
    }
  }

  /** The cells of the other blocks when an empty block leaves. */
  lemma MinorsWithout(minors: map<nat, Minor>, s: Shape, b: nat)
    requires RepMinors(minors, s) && b < |s| && s[b].cells == []
    ensures RepMinors(minors, Removed(s, b))
  {
    hide RepBlock;
    var t := Removed(s, b);
    forall a | a in minors
      ensures exists k :: 0 <= k < |t| && a in CellAddrs(t[k])
    {
      var k :| 0 <= k < |s| && a in CellAddrs(s[k]);
      assert k != b;
      assert t[if k < b then k else k - 1] == s[k];
    }
  }

  lemma MinorsGrown(minors: map<nat, Minor>, s: Shape, n: Block)
    requires RepMinors(minors, s) && n.cells == []
    ensures RepMinors(minors, s + [n])
  {
    hide CellAddrs;
    var t := s + [n];
    assert RepBlock(minors, n);
    hide RepBlock;
    forall a | a in minors
      ensures exists k :: 0 <= k < |t| && a in CellAddrs(t[k])
    {
      var k :| 0 <= k < |s| && a in CellAddrs(s[k]);
      assert t[k] == s[k];
    }
  }
}
