/** Lazy file mapping: a range of memory stands for a range of a file. Bytes before
    the first and after the last whole page are copied when the mapping is made;
    whole pages are fetched by page faults; a flush writes everything back. */
module Mmap {
  import opened Bytes

  type Page = p: seq<Byte> | |p| == 4096 witness seq(4096, _ => 0)

  /** The mapping record. */
  datatype Mapping = Mapping(addr: nat, offset: nat, size: nat, pre: nat, post: nat,
                             pageOffset: nat, pageAddr: nat, pages: nat)

  /** `mm2_mmap`'s split of the range. A range of at most a page is not split. */
  function Split(addr: nat, offset: nat, size: nat): (m: Mapping)
    requires size > 4096
  {
    var pageAddr := if addr % 4096 != 0 then (addr + 4096) / 4096 * 4096 else addr;
    var pre := pageAddr - addr;
    var asize := size - pre;
    Mapping(addr, offset, size, pre, asize - asize / 4096 * 4096, offset + pre, pageAddr, asize / 4096)
  }

  /** Head, whole pages and tail partition the range, for every address, offset and size. */
  lemma SplitPartitions(addr: nat, offset: nat, size: nat)
    requires size > 4096
    ensures var m := Split(addr, offset, size);
      && m.pageAddr % 4096 == 0 && m.addr + m.pre == m.pageAddr && m.pre < 4096 && m.post < 4096
      && m.pre + 4096 * m.pages + m.post == m.size && m.pageOffset == m.offset + m.pre
  {
  }

  ghost predicate WellSplit(m: Mapping) {
    if m.size <= 4096 then m.pages == 0
    else
      && m.pageAddr % 4096 == 0 && m.addr + m.pre == m.pageAddr
      && m.pre + 4096 * m.pages + m.post == m.size && m.pageOffset == m.offset + m.pre
  }

  /** Memory is the pages that are present. */
  type Memory = map<nat, Page>

  function At(mem: Memory, a: nat): Byte
    requires a / 4096 in mem
  {
    mem[a / 4096][a % 4096]
  }

  /** Storing `data` at `a`, wherever the pages are present. */
  function Poked(mem: Memory, a: nat, data: seq<Byte>): Memory {
    map p | p in mem :: PokedPage(mem[p], p * 4096, a, data)
  }

  function PokedPage(page: Page, base: nat, a: nat, data: seq<Byte>): Page {
    seq(4096, i requires 0 <= i < 4096 => if a <= base + i < a + |data| then data[base + i - a] else page[i])
  }

  lemma PokedAt(mem: Memory, a: nat, data: seq<Byte>, x: nat)
    requires x / 4096 in mem
    ensures x / 4096 in Poked(mem, a, data)
    ensures At(Poked(mem, a, data), x) == if a <= x < a + |data| then data[x - a] else At(mem, x)
  {
    assert x == x / 4096 * 4096 + x % 4096;
  }

  predicate Present(mem: Memory, a: nat, n: nat) {
    forall x :: a <= x < a + n ==> x / 4096 in mem
  }

  function Peek(mem: Memory, a: nat, n: nat): (r: seq<Byte>)
    requires Present(mem, a, n)
    ensures |r| == n
  {
    seq(n, i requires 0 <= i < n => At(mem, a + i))
  }

  /** The page number of a whole page, and whether an address is on one. */
  function PageNo(m: Mapping, i: nat): nat {
    m.pageAddr / 4096 + i
  }

  /** Which of the whole pages an address is on. */
  lemma PageIndex(m: Mapping, a: nat) returns (i: nat)
    requires m.pageAddr % 4096 == 0 && OnWholePage(m, a)
    ensures i < m.pages && a / 4096 == PageNo(m, i) && a / 4096 * 4096 - m.pageAddr == 4096 * i
  {
    i := a / 4096 - m.pageAddr / 4096;
  }

  function WholePages(m: Mapping): set<nat> {
    set i | 0 <= i < m.pages :: PageNo(m, i)
  }

  predicate OnWholePage(m: Mapping, a: nat) {
    m.pageAddr <= a < m.pageAddr + 4096 * m.pages
  }

  lemma WholePageNo(m: Mapping, a: nat)
    requires m.pageAddr % 4096 == 0
    ensures OnWholePage(m, a) <==> PageNo(m, 0) <= a / 4096 < PageNo(m, m.pages)
  {
  }

  /** What a reader of the mapped range sees: memory where it is present, the file
      where it is not. */
  function View(m: Mapping, mem: Memory, file: seq<Byte>): (v: seq<Byte>)
    requires m.offset + m.size <= |file|
    ensures |v| == m.size
  {
    seq(m.size, k requires 0 <= k < m.size => ViewAt(m, mem, file, k))
  }

  function ViewAt(m: Mapping, mem: Memory, file: seq<Byte>, k: nat): Byte
    requires k < m.size && m.offset + m.size <= |file|
  {
    if (m.addr + k) / 4096 in mem then At(mem, m.addr + k) else file[m.offset + k]
  }

  /** The file with the mapped range replaced. */
  function Written(m: Mapping, file: seq<Byte>, v: seq<Byte>): seq<Byte>
    requires |v| == m.size && m.offset + m.size <= |file|
  {
    Spliced(file, m.offset, v)
  }

  // ---------- what keeps the view ----------

  /** Memory from `lo` to `hi` holds what the file does. */
  ghost predicate Holds(m: Mapping, mem: Memory, file: seq<Byte>, lo: nat, hi: nat) {
    forall a :: lo <= a < hi && m.addr <= a < m.addr + m.size && m.offset + m.size <= |file| ==>
      a / 4096 in mem && At(mem, a) == file[m.offset + (a - m.addr)]
  }

  /** Memory is as it was, except for the `n` bytes at `a`. */
  ghost predicate KeptBut(before: Memory, mem: Memory, a: nat, n: nat) {
    forall x {:trigger At(mem, x)} {:trigger At(before, x)} ::
      x / 4096 in before && !(a <= x < a + n) ==> x / 4096 in mem && At(mem, x) == At(before, x)
  }

  lemma EagerView(m: Mapping, mem: Memory, file: seq<Byte>)
    requires m.offset + m.size <= |file| && Holds(m, mem, file, m.addr, m.addr + m.size)
    ensures View(m, mem, file) == file[m.offset..m.offset + m.size]
  {
    forall k | 0 <= k < m.size
      ensures ViewAt(m, mem, file, k) == file[m.offset + k]
    {
      assert (m.addr + k) / 4096 in mem ==> At(mem, m.addr + k) == file[m.offset + k];
    }
  }

  ghost predicate NoWholePages(m: Mapping, mem: Memory) {
    forall i :: 0 <= i < m.pages ==> PageNo(m, i) !in mem
  }

  lemma LazyView(m: Mapping, mem: Memory, file: seq<Byte>)
    requires m.size > 4096 && WellSplit(m) && m.offset + m.size <= |file| && NoWholePages(m, mem)
    requires Holds(m, mem, file, m.addr, m.pageAddr) && Holds(m, mem, file, m.pageAddr + 4096 * m.pages, m.addr + m.size)
    ensures View(m, mem, file) == file[m.offset..m.offset + m.size]
  {
    forall k | 0 <= k < m.size
      ensures ViewAt(m, mem, file, k) == file[m.offset + k]
    {
      var a := m.addr + k;
      if OnWholePage(m, a) {
        WholePageNo(m, a);
        assert PageNo(m, a / 4096 - PageNo(m, 0)) !in mem;
      } else {
        assert At(mem, a) == file[m.offset + (a - m.addr)];
      }
    }
  }

  lemma PresentEnds(m: Mapping, mem: Memory)
    requires m.size > 4096 && WellSplit(m) && Present(mem, m.addr, m.size)
    ensures Present(mem, m.addr, m.pre) && Present(mem, m.pageAddr + 4096 * m.pages, m.post)
  {
  }

  lemma PresentKeys(before: Memory, mem: Memory, a: nat, n: nat)
    requires Present(before, a, n) && mem.Keys == before.Keys
    ensures Present(mem, a, n)
  {
  }

  /** The two copied ends survive when the whole pages are freed. */
  lemma LazyMemory(m: Mapping, before: Memory, head: Memory, ends: Memory, mem: Memory, file: seq<Byte>)
    requires m.size > 4096 && WellSplit(m) && m.offset + m.size <= |file| && Present(before, m.addr, m.size)
    requires head.Keys == before.Keys == ends.Keys
    requires KeptBut(before, head, m.addr, m.pre) && Holds(m, head, file, m.addr, m.pageAddr)
    requires KeptBut(head, ends, m.pageAddr + 4096 * m.pages, m.post)
    requires Holds(m, ends, file, m.pageAddr + 4096 * m.pages, m.addr + m.size)
    requires mem == ends - WholePages(m)
    ensures KeptBut(before, mem, m.addr, m.size) && NoWholePages(m, mem)
    ensures Present(mem, m.addr, m.pre) && Present(mem, m.pageAddr + 4096 * m.pages, m.post)
    ensures Holds(m, mem, file, m.addr, m.pageAddr) && Holds(m, mem, file, m.pageAddr + 4096 * m.pages, m.addr + m.size)
  {
    forall x: nat | x / 4096 in before && !OnWholePage(m, x)
      ensures x / 4096 in mem && At(mem, x) == At(ends, x)
      ensures x < m.pageAddr ==> At(mem, x) == At(head, x)
      ensures !(m.addr <= x < m.addr + m.size) ==> At(mem, x) == At(before, x)
    {
      WholePageNo(m, x);
      var fromEnds, fromHead := At(ends, x), At(head, x);
    }
  }

  /** Bytes `lo` to `hi` of the range are the same in the file as in `v`. */
  ghost predicate Synced(m: Mapping, file: seq<Byte>, v: seq<Byte>, lo: nat, hi: nat) {
    && m.offset + m.size <= |file| && |v| == m.size
    && forall k :: lo <= k < hi && k < m.size ==> file[m.offset + k] == v[k]
  }

  /** Files agree except from `lo` to `hi`. */
  ghost predicate SameBut(f: seq<Byte>, g: seq<Byte>, lo: nat, hi: nat) {
    |f| == |g| && forall x :: 0 <= x < |f| && !(lo <= x < hi) ==> f[x] == g[x]
  }

  /** Files agree except in the mapped range. */
  ghost predicate SameOutside(m: Mapping, f: seq<Byte>, g: seq<Byte>) {
    SameBut(f, g, m.offset, m.offset + m.size)
  }

  lemma SyncedAll(m: Mapping, before: seq<Byte>, file: seq<Byte>, v: seq<Byte>)
    requires Synced(m, file, v, 0, m.size) && SameOutside(m, before, file)
    ensures file == Written(m, before, v)
  {
    var w := Written(m, before, v);
    forall x | 0 <= x < |file|
      ensures file[x] == w[x]
    {
      if m.offset <= x < m.offset + m.size {
        assert file[m.offset + (x - m.offset)] == v[x - m.offset];
      }
    }
  }

  /** Writing back bytes of memory to where the file keeps them changes no view. */
  lemma WriteBackKeepsView(m: Mapping, mem: Memory, file: seq<Byte>, k: nat, n: nat)
    requires m.offset + m.size <= |file| && k + n <= m.size && Present(mem, m.addr + k, n)
    ensures var file' := Spliced(file, m.offset + k, Peek(mem, m.addr + k, n));
      && View(m, mem, file') == View(m, mem, file) && SameOutside(m, file, file')
      && Synced(m, file', View(m, mem, file), k, k + n)
      && SameBut(file, file', m.offset + k, m.offset + k + n)
  {
    var file' := Spliced(file, m.offset + k, Peek(mem, m.addr + k, n));
    forall j | 0 <= j < m.size
      ensures ViewAt(m, mem, file', j) == ViewAt(m, mem, file, j)
      ensures k <= j < k + n ==> file'[m.offset + j] == ViewAt(m, mem, file, j)
      ensures !(k <= j < k + n) ==> file'[m.offset + j] == file[m.offset + j]
    {
      if k <= j < k + n {
        assert (m.addr + j) / 4096 in mem;
        assert file'[m.offset + j] == Peek(mem, m.addr + k, n)[j - k];
      }
    }
  }

  lemma KeepSynced(m: Mapping, f: seq<Byte>, g: seq<Byte>, v: seq<Byte>, lo: nat, hi: nat, k: nat, n: nat)
    requires Synced(m, f, v, lo, hi) && Synced(m, g, v, k, k + n)
    requires SameBut(f, g, m.offset + k, m.offset + k + n)
    ensures Synced(m, g, v, lo, hi)
  {
  }

  lemma SyncedNothing(m: Mapping, file: seq<Byte>, v: seq<Byte>, k: nat)
    requires m.offset + m.size <= |file| && |v| == m.size
    ensures Synced(m, file, v, k, k)
  {
  }

  lemma SyncedJoin(m: Mapping, file: seq<Byte>, v: seq<Byte>, lo: nat, mid: nat, hi: nat)
    requires Synced(m, file, v, lo, mid) && Synced(m, file, v, mid, hi)
    ensures Synced(m, file, v, lo, hi)
  {
  }

  lemma SameOutsideTrans(m: Mapping, f: seq<Byte>, g: seq<Byte>, h: seq<Byte>)
    requires SameOutside(m, f, g) && SameOutside(m, g, h)
    ensures SameOutside(m, f, h)
  {
  }

  lemma SameOutsideSelf(m: Mapping, f: seq<Byte>)
    ensures SameOutside(m, f, f)
  {
  }

  /** A page that is not present shows the file. */
  lemma AbsentSynced(m: Mapping, mem: Memory, file: seq<Byte>, i: nat)
    requires m.size > 4096 && WellSplit(m) && m.offset + m.size <= |file| && i < m.pages && PageNo(m, i) !in mem
    ensures Synced(m, file, View(m, mem, file), m.pre + 4096 * i, m.pre + 4096 * i + 4096)
  {
    forall k | m.pre + 4096 * i <= k < m.pre + 4096 * i + 4096
      ensures View(m, mem, file)[k] == file[m.offset + k]
    {
      assert (m.addr + k) / 4096 == PageNo(m, i);
    }
  }

  lemma PagePresent(m: Mapping, mem: Memory, i: nat)
    requires m.size > 4096 && WellSplit(m) && i < m.pages && PageNo(m, i) in mem
    ensures Present(mem, m.addr + m.pre + 4096 * i, 4096)
  {
  }

  lemma PresentWithout(m: Mapping, mem: Memory, i: nat)
    requires m.size > 4096 && WellSplit(m) && i < m.pages
    requires Present(mem, m.addr, m.pre) && Present(mem, m.pageAddr + 4096 * m.pages, m.post)
    ensures var mem' := mem - {PageNo(m, i)};
      Present(mem', m.addr, m.pre) && Present(mem', m.pageAddr + 4096 * m.pages, m.post)
  {
  }

  /** A page whose bytes the file already has may leave memory. */
  lemma DropKeepsView(m: Mapping, mem: Memory, file: seq<Byte>, i: nat)
    requires m.size > 4096 && WellSplit(m) && m.offset + m.size <= |file| && i < m.pages
    requires PageNo(m, i) in mem ==> Synced(m, file, View(m, mem, file), m.pre + 4096 * i, m.pre + 4096 * i + 4096)
    ensures View(m, mem - {PageNo(m, i)}, file) == View(m, mem, file)
  {
    forall k | 0 <= k < m.size
      ensures ViewAt(m, mem - {PageNo(m, i)}, file, k) == ViewAt(m, mem, file, k)
    {
      if (m.addr + k) / 4096 == PageNo(m, i) && PageNo(m, i) in mem {
        assert m.pre + 4096 * i <= k < m.pre + 4096 * i + 4096;
        assert View(m, mem, file)[k] == ViewAt(m, mem, file, k);
      }
    }
  }

  /** A fetched page shows what the file held. */
  lemma FetchKeepsView(m: Mapping, mem: Memory, file: seq<Byte>, i: nat, page: Page)
    requires m.size > 4096 && WellSplit(m) && m.offset + m.size <= |file| && i < m.pages && PageNo(m, i) !in mem
    requires page == file[m.pageOffset + 4096 * i..m.pageOffset + 4096 * i + 4096]
    ensures View(m, mem[PageNo(m, i) := page], file) == View(m, mem, file)
  {
    var mem' := mem[PageNo(m, i) := page];
    forall k | 0 <= k < m.size
      ensures ViewAt(m, mem', file, k) == ViewAt(m, mem, file, k)
    {
      if (m.addr + k) / 4096 == PageNo(m, i) {
        var a := m.addr + k;
        assert a == a / 4096 * 4096 + a % 4096;
        assert m.pageAddr == m.pageAddr / 4096 * 4096;
        assert page[a % 4096] == file[m.pageOffset + 4096 * i + a % 4096];
        assert m.pageOffset + 4096 * i + a % 4096 == m.offset + k;
      }
    }
  }

  lemma StoreKept(before: Memory, mem: Memory, a: nat, b: Byte)
    requires forall p :: p in before ==> p in mem && mem[p] == before[p]
    ensures KeptBut(before, Poked(mem, a, [b]), a, 1) && Poked(mem, a, [b]).Keys == mem.Keys
  {
    forall x: nat | x / 4096 in before && x != a
      ensures At(Poked(mem, a, [b]), x) == At(before, x)
    {
      PokedAt(mem, a, [b], x);
    }
  }

  lemma InMemory(m: Mapping, mem: Memory, k: nat)
    requires WellSplit(m) && k < m.size
    requires m.size <= 4096 ==> Present(mem, m.addr, m.size)
    requires m.size > 4096 ==> Present(mem, m.addr, m.pre) && Present(mem, m.pageAddr + 4096 * m.pages, m.post)
    requires m.size > 4096 && OnWholePage(m, m.addr + k) ==> (m.addr + k) / 4096 in mem
    ensures (m.addr + k) / 4096 in mem
  {
  }

  lemma FetchedPage(before: Memory, p: nat, zero: Page, data: seq<Byte>)
    requires |data| == 4096
    ensures Poked(before[p := zero], p * 4096, data) == before[p := data]
  {
    var after := Poked(before[p := zero], p * 4096, data);
    assert after[p] == data;
    forall q | q in before && q != p
      ensures after[q] == before[q]
    {
      assert q * 4096 + 4096 <= p * 4096 || p * 4096 + 4096 <= q * 4096;
    }
  }

  /** Storing into memory that is present stores into the view. */
  lemma StoreInView(m: Mapping, mem: Memory, file: seq<Byte>, k: nat, b: Byte)
    requires m.offset + m.size <= |file| && k < m.size && (m.addr + k) / 4096 in mem
    ensures View(m, Poked(mem, m.addr + k, [b]), file) == View(m, mem, file)[k := b]
  {
    var mem' := Poked(mem, m.addr + k, [b]);
    forall j | 0 <= j < m.size
      ensures ViewAt(m, mem', file, j) == if j == k then b else ViewAt(m, mem, file, j)
    {
      if (m.addr + j) / 4096 in mem {
        PokedAt(mem, m.addr + k, [b], m.addr + j);
      }
    }
  }

  // ---------- the mapping in a process ----------

  /** One mapped file: the file, the memory it is mapped into, and the paging state. */
  class MappedFile {
    var file: seq<Byte>
    var pos: nat                 // the file handle's position
    var mem: Memory
    var guards: set<nat>         // pages that fault on access
    var m: Mapping
    var regionAddr: nat          // the region registered for page faults
    var regionSize: nat

    /** Every byte of the range is in memory, or on a whole page that is not present. */
    ghost predicate Valid()
      reads this
    {
      && WellSplit(m) && m.offset + m.size <= |file|
      && (m.size <= 4096 ==> Present(mem, m.addr, m.size))
      && (m.size > 4096 ==>
            && Present(mem, m.addr, m.pre) && Present(mem, m.pageAddr + 4096 * m.pages, m.post)
            && regionAddr == m.pageAddr && regionSize == 4096 * m.pages)
    }

    function Seen(): seq<Byte>
      reads this
      requires m.offset + m.size <= |file|
    {
      View(m, mem, file)
    }

    // ---------- files and pages ----------

    /** `fs_read` into memory: as many bytes as the file still has. */
    method ReadInto(n: nat, a: nat) returns (count: nat)
      modifies this`mem, this`pos
      ensures count == if old(pos) >= |file| then 0 else if n <= |file| - old(pos) then n else |file| - old(pos)
      ensures count > 0 ==> mem == Poked(old(mem), a, file[old(pos)..old(pos) + count])
      ensures count == 0 ==> mem == old(mem)
      ensures pos == old(pos) + count
    {
      count := if pos >= |file| then 0 else if n <= |file| - pos then n else |file| - pos;
      if count > 0 {
        mem := Poked(mem, a, file[pos..pos + count]);
      }
      pos := pos + count;
    }

    /** `fs_write` from memory, inside the file. */
    method WriteFrom(n: nat, a: nat)
      requires Present(mem, a, n) && pos + n <= |file|
      modifies this`file, this`pos
      ensures file == Spliced(old(file), old(pos), Peek(mem, a, n)) && pos == old(pos) + n
    {
      file := Spliced(file, pos, Peek(mem, a, n));
      pos := pos + n;
    }

    /** `free_pages` and `guard_page_at` for the whole pages of a new mapping. */
    method FreeAndGuard()
      modifies this`mem, this`guards
      ensures mem == old(mem) - WholePages(m)
      ensures guards == old(guards) + WholePages(m)
    {
      for i := 0 to m.pages
        invariant mem == old(mem) - set j | 0 <= j < i :: PageNo(m, j)
        invariant guards == old(guards)
      {
        mem := mem - {PageNo(m, i)};
      }
      for i := 0 to m.pages
        invariant guards == old(guards) + set j | 0 <= j < i :: PageNo(m, j)
        invariant mem == old(mem) - WholePages(m)
      {
        guards := guards + {PageNo(m, i)};
      }
    }

    // ---------- mapping ----------

    /** Copies `n` bytes of the range, from byte `k` on, into memory. */
    method Copy(k: nat, n: nat)
      requires k + n <= m.size && m.offset + m.size <= |file| && Present(mem, m.addr + k, n)
      modifies this`mem, this`pos
      ensures mem.Keys == old(mem).Keys && KeptBut(old(mem), mem, m.addr + k, n)
      ensures Holds(m, mem, file, m.addr + k, m.addr + k + n)
    {
      if n != 0 {
        pos := m.offset + k;
        var count := ReadInto(n, m.addr + k);
        forall x: nat | x / 4096 in mem
          ensures m.addr + k <= x < m.addr + k + n ==> At(mem, x) == file[m.offset + (x - m.addr)]
          ensures !(m.addr + k <= x < m.addr + k + n) ==> At(mem, x) == At(old(mem), x)
        {
          PokedAt(old(mem), m.addr + k, file[m.offset + k..m.offset + k + n], x);
        }
      }
    }

    /** The lazy branch of `do_mapping`: copy both ends, free and guard the whole pages. */
    method MapLazily()
      requires m.size > 4096 && WellSplit(m) && m.offset + m.size <= |file| && Present(mem, m.addr, m.size)
      modifies this`mem, this`pos, this`guards
      ensures KeptBut(old(mem), mem, m.addr, m.size)
      ensures Present(mem, m.addr, m.pre) && Present(mem, m.pageAddr + 4096 * m.pages, m.post)
      ensures Seen() == file[m.offset..m.offset + m.size]
    {
      hide KeptBut, Holds, View, PageNo, Present, WholePages;
      PresentEnds(m, mem);
      Copy(0, m.pre);
      ghost var head := mem;
      PresentKeys(old(mem), mem, m.pageAddr + 4096 * m.pages, m.post);
      Copy(m.pre + 4096 * m.pages, m.post);
      ghost var ends := mem;
      FreeAndGuard();
      LazyMemory(m, old(mem), head, ends, mem, file);
      LazyView(m, mem, file);
    }

    /** `do_mapping` */
    method DoMapping()
      requires WellSplit(m) && m.offset + m.size <= |file| && Present(mem, m.addr, m.size)
      modifies this`mem, this`pos, this`guards
      ensures pos == old(pos) && KeptBut(old(mem), mem, m.addr, m.size)
      ensures m.size <= 4096 ==> Present(mem, m.addr, m.size)
      ensures m.size > 4096 ==> Present(mem, m.addr, m.pre) && Present(mem, m.pageAddr + 4096 * m.pages, m.post)
      ensures Seen() == file[m.offset..m.offset + m.size]
    {
      hide KeptBut, Holds, View, PageNo, Present;
      var saved := pos;
      if m.size <= 4096 {
        Copy(0, m.size);
        EagerView(m, mem, file);
        PresentKeys(old(mem), mem, m.addr, m.size);
      } else {
        MapLazily();
      }
      pos := saved;
    }

    /** `mm2_mmap`: the range now shows the file's bytes. The range must be allocated
        and the file must cover it; other memory and the file are as they were. */
    method Map(addr: nat, offset: nat, size: nat)
      requires Present(mem, addr, size) && offset + size <= |file|
      modifies this`m, this`mem, this`pos, this`guards, this`regionAddr, this`regionSize
      ensures Valid() && m.addr == addr && m.offset == offset && m.size == size
      ensures Seen() == file[offset..offset + size]
      ensures pos == old(pos) && KeptBut(old(mem), mem, addr, size)
    {
      if size > 4096 {
        SplitPartitions(addr, offset, size);
        m := Split(addr, offset, size);
      } else {
        m := Mapping(addr, offset, size, 0, 0, offset, addr, 0);
      }
      hide View, KeptBut, Present;
      DoMapping();
      if size > 4096 {
        regionAddr, regionSize := m.pageAddr, 4096 * m.pages;
      }
    }

    // ---------- access ----------

    /** `mmap_read`: fetch the page of `a`. The checks that panic cannot fail here. */
    method FetchPage(a: nat)
      requires Valid() && m.size > 4096 && OnWholePage(m, a) && a / 4096 !in mem
      modifies this`mem, this`pos
      ensures Valid() && Seen() == old(Seen()) && mem.Keys == old(mem).Keys + {a / 4096} && pos == old(pos)
      ensures forall p :: p in old(mem) ==> p in mem && mem[p] == old(mem)[p]
    {
      var saved := pos;
      var pageAddr := a / 4096 * 4096;
      var readOffset := pageAddr - m.pageAddr + m.pageOffset;
      ghost var i := PageIndex(m, a);
      hide View, Present, PageNo;
      ghost var before := mem;
      var zero: Page := seq(4096, _ => 0);
      mem := mem[a / 4096 := zero];
      pos := readOffset;
      var count := ReadInto(4096, pageAddr);
      assert count == 4096;
      pos := saved;
      FetchedPage(before, a / 4096, zero, file[readOffset..readOffset + 4096]);
      FetchKeepsView(m, before, file, i, file[readOffset..readOffset + 4096]);
    }

    /** `handle_pf`: whether the fault was one of the mapping's. */
    method HandleFault(a: nat) returns (handled: bool)
      requires Valid()
      modifies this`mem, this`pos
      ensures Valid() && Seen() == old(Seen()) && pos == old(pos)
      ensures handled <==> m.size > 4096 && OnWholePage(m, a) && a / 4096 !in old(mem)
      ensures mem.Keys == old(mem).Keys + if handled then {a / 4096} else {}
      ensures forall p :: p in old(mem) ==> p in mem && mem[p] == old(mem)[p]
    {
      if a / 4096 in mem || m.size <= 4096 {
        return false;
      }
      if regionAddr <= a && regionAddr + regionSize > a {
        FetchPage(a);
        return true;
      }
      return false;
    }

    /** A load through the mapping reads the view, whatever has been fetched so far. */
    method LoadByte(k: nat) returns (b: Byte)
      requires Valid() && k < m.size
      modifies this`mem, this`pos
      ensures Valid() && b == old(Seen())[k] && Seen() == old(Seen())
    {
      ghost var v := Seen();
      var handled := HandleFault(m.addr + k);
      assert (m.addr + k) / 4096 in mem by { InMemory(m, mem, k); }
      assert Seen()[k] == ViewAt(m, mem, file, k);
      b := At(mem, m.addr + k);
    }

    /** A store through the mapping writes the view; the file waits for a flush. */
    method StoreByte(k: nat, b: Byte)
      requires Valid() && k < m.size
      modifies this`mem, this`pos
      ensures Valid() && Seen() == old(Seen())[k := b]
      ensures KeptBut(old(mem), mem, m.addr + k, 1)
    {
      hide View, Poked, PokedPage, KeptBut;
      var handled := HandleFault(m.addr + k);
      assert (m.addr + k) / 4096 in mem by { InMemory(m, mem, k); }
      StoreInView(m, mem, file, k, b);
      StoreKept(old(mem), mem, m.addr + k, b);
      mem := Poked(mem, m.addr + k, [b]);
    }

    // ---------- flushing ----------

    /** Writes bytes `k` to `k + n` of the range back to the file. */
    method WriteBack(k: nat, n: nat)
      requires Valid() && k + n <= m.size && Present(mem, m.addr + k, n)
      modifies this`file, this`pos
      ensures Valid() && Seen() == old(Seen()) && SameOutside(m, old(file), file)
      ensures SameBut(old(file), file, m.offset + k, m.offset + k + n) && Synced(m, file, Seen(), k, k + n)
    {
      hide View, Peek, Spliced, Present;
      if n != 0 {
        pos := m.offset + k;
        WriteBackKeepsView(m, mem, file, k, n);
        WriteFrom(n, m.addr + k);
      }
    }

    /** Head, tail and the first `i` whole pages have been written. */
    ghost predicate Flushed(i: nat, v: seq<Byte>)
      reads this
    {
      Synced(m, file, v, 0, m.pre + 4096 * i) && Synced(m, file, v, m.pre + 4096 * m.pages, m.size)
    }

    /** One whole page: written back if present, then freed and guarded. */
    method FlushPage(i: nat)
      requires Valid() && m.size > 4096 && i < m.pages && Flushed(i, Seen())
      modifies this`file, this`pos, this`mem, this`guards
      ensures Valid() && Seen() == old(Seen()) && SameOutside(m, old(file), file) && Flushed(i + 1, Seen())
      ensures mem == old(mem) - {PageNo(m, i)} && guards == old(guards) + {PageNo(m, i)}
    {
      hide View, Present, Synced, SameBut, PageNo;
      ghost var v := Seen();
      var k := m.pre + 4096 * i;
      SyncedNothing(m, file, v, k);
      if PageNo(m, i) in mem {
        PagePresent(m, mem, i);
        WriteBack(k, 4096);
        KeepSynced(m, old(file), file, v, 0, k, k, 4096);
        KeepSynced(m, old(file), file, v, m.pre + 4096 * m.pages, m.size, k, 4096);
      } else {
        AbsentSynced(m, mem, file, i);
        SameOutsideSelf(m, file);
      }
      DropKeepsView(m, mem, file, i);
      PresentWithout(m, mem, i);
      SyncedJoin(m, file, v, 0, k, k + 4096);
      mem := mem - {PageNo(m, i)};
      guards := guards + {PageNo(m, i)};
    }

    /** `flush_mapping`: the file becomes what the mapping showed, and the mapping
        still shows it. */
    method Flush()
      requires Valid()
      modifies this`file, this`pos, this`mem, this`guards
      ensures Valid() && file == Written(m, old(file), old(Seen())) && Seen() == old(Seen()) && pos == old(pos)
    {
      hide View, Present, Synced, SameBut;
      var saved := pos;
      ghost var v := Seen();
      if m.size <= 4096 {
        WriteBack(0, m.size);
        pos := saved;
        SyncedAll(m, old(file), file, v);
        return;
      }
      FlushEnds();
      for i := 0 to m.pages
        invariant Valid() && Seen() == v && SameOutside(m, old(file), file) && Flushed(i, v)
      {
        ghost var before := file;
        FlushPage(i);
        SameOutsideTrans(m, old(file), before, file);
      }
      SyncedJoin(m, file, v, 0, m.pre + 4096 * m.pages, m.size);
      SyncedAll(m, old(file), file, v);
      pos := saved;
    }

    method FlushEnds()
      requires Valid() && m.size > 4096
      modifies this`file, this`pos
      ensures Valid() && Seen() == old(Seen()) && SameOutside(m, old(file), file) && Flushed(0, Seen())
    {
      hide View, Present, Synced, SameBut;
      WriteBack(0, m.pre);
      ghost var head := file;
      WriteBack(m.pre + 4096 * m.pages, m.post);
      SameOutsideTrans(m, old(file), head, file);
      KeepSynced(m, head, file, Seen(), 0, m.pre, m.pre + 4096 * m.pages, m.post);
    }
  }
}
