/** What realloc needs of the heap's shape: a cell that keeps its place but changes
    the size it was asked for, and bytes that move to a new cell. */
module HeapResize {
  import opened HeapShape
  import opened HeapLinks

  // ---------- a smaller request in place ----------

  function Resized(s: Shape, b: nat, i: nat, req: nat): Shape
    requires IsCell(s, b, i)
  {
    s[b := s[b].(cells := s[b].cells[i := s[b].cells[i].(req := req)])]
  }

  /** The two cell lists agree but for the requested sizes. */
  ghost predicate SamePlaces(x: seq<Cell>, y: seq<Cell>) {
    |x| == |y| && forall k :: 0 <= k < |x| ==> x[k].addr == y[k].addr && x[k].size == y[k].size
  }

  lemma {:induction false} SameSizes(x: seq<Cell>, y: seq<Cell>)
    requires SamePlaces(x, y)
    ensures SumSizes(x) == SumSizes(y)
  {
    if x != [] {
      SameSizes(x[..|x| - 1], y[..|y| - 1]);
    }
  }

  lemma {:induction false} SameTotals(s: Shape, t: Shape)
    requires |s| == |t|
    requires forall k :: 0 <= k < |s| ==> s[k].pages == t[k].pages && SumSizes(s[k].cells) == SumSizes(t[k].cells)
    ensures InUse(s) == InUse(t) && Allocated(s) == Allocated(t)
  {
    if s != [] {
      SameTotals(s[..|s| - 1], t[..|t| - 1]);
    }
  }

  lemma ResizedShape(s: Shape, b: nat, i: nat, req: nat)
    requires ShapeOk(s) && IsCell(s, b, i) && req <= s[b].cells[i].req
    ensures ShapeOk(Resized(s, b, i, req))
    ensures InUse(Resized(s, b, i, req)) == InUse(s) && Allocated(Resized(s, b, i, req)) == Allocated(s)
  {
    hide InUse, Allocated, SumSizes;
    var t := Resized(s, b, i, req);
    assert BlockOk(t[b]) by { assert BlockOk(s[b]); }
    SameSizes(s[b].cells, t[b].cells);
    SameTotals(s, t);
  }

  lemma ResizedMajors(majors: map<nat, Major>, s: Shape, b: nat, i: nat, req: nat)
    requires RepMajors(majors, s) && IsCell(s, b, i)
    ensures RepMajors(majors, Resized(s, b, i, req)) && BlockAddrs(Resized(s, b, i, req)) == BlockAddrs(s)
  {
    hide SumSizes;
    var t := Resized(s, b, i, req);
    SameSizes(s[b].cells, t[b].cells);
    assert forall k :: 0 <= k < |s| ==> s[k].addr == t[k].addr;
    assert BlockAddrs(t) == BlockAddrs(s);
    forall k | 0 <= k < |t|
      ensures majors[t[k].addr] == MajorAt(t, k)
    {
      var own := MajorAt(s, k);
    }
  }

  function Rewritten(minors: map<nat, Minor>, a: nat, req: nat): map<nat, Minor>
    requires a in minors
  {
    minors[a := minors[a].(reqSize := req)]
  }

  lemma ResizedOwn(minors: map<nat, Minor>, b: Block, i: nat, req: nat)
    requires RepBlock(minors, b) && DistinctCells(b.cells) && i < |b.cells|
    ensures b.cells[i].addr in minors
    ensures var c := b.(cells := b.cells[i := b.cells[i].(req := req)]);
      RepBlock(Rewritten(minors, b.cells[i].addr, req), c) && CellAddrs(c) == CellAddrs(b)
  {
    var c, own := b.(cells := b.cells[i := b.cells[i].(req := req)]), MinorAt(b, i);
    assert forall j :: 0 <= j < |b.cells| ==> c.cells[j].addr == b.cells[j].addr;
    var m := Rewritten(minors, b.cells[i].addr, req);
    forall j | 0 <= j < |c.cells|
      ensures c.cells[j].addr in m && m[c.cells[j].addr] == MinorAt(c, j)
    {
      var was := MinorAt(b, j);
    }
  }

  lemma ResizedOther(minors: map<nat, Minor>, o: Block, a: nat, req: nat)
    requires RepBlock(minors, o) && a in minors && a !in CellAddrs(o)
    ensures RepBlock(Rewritten(minors, a, req), o)
  {
    forall j | 0 <= j < |o.cells|
      ensures var m := Rewritten(minors, a, req); o.cells[j].addr in m && m[o.cells[j].addr] == MinorAt(o, j)
    {
      var own := MinorAt(o, j);
      assert o.cells[j].addr in CellAddrs(o);
    }
  }

  lemma ResizedMinors(minors: map<nat, Minor>, s: Shape, b: nat, i: nat, req: nat)
    requires ShapeOk(s) && RepMinors(minors, s) && IsCell(s, b, i)
    ensures var a := s[b].cells[i].addr; a in minors && RepMinors(Rewritten(minors, a, req), Resized(s, b, i, req))
  {
    hide ShapeOk, RepBlock, DistinctCells;
    var t, a := Resized(s, b, i, req), s[b].cells[i].addr;
    ShapeDistinct(s);
    ResizedOwn(minors, s[b], i, req);
    assert a in CellAddrs(s[b]);
    hide CellAddrs;
    var m := Rewritten(minors, a, req);
    forall k | 0 <= k < |t|
      ensures RepBlock(m, t[k]) && CellAddrs(t[k]) == CellAddrs(s[k])
    {
      if k != b {
        assert CellAddrs(s[k]) !! CellAddrs(s[b]);
        ResizedOther(minors, s[k], a, req);
      }
    }
    forall x | x in m
      ensures exists k :: 0 <= k < |t| && x in CellAddrs(t[k])
    {
      var k :| 0 <= k < |s| && x in CellAddrs(s[k]);
      assert x in CellAddrs(t[k]);
    }
  }
}
