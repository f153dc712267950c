/** The loops over the sixteen entries of a directory sector: looking for a name, and
    counting entries that a new file could take. */
module DirScan {
  import opened Bytes
  import opened LongNames
  import opened DirEntries

  ghost predicate NoneBefore(dir: Dir, name: seq<Byte>, i: nat)
    requires AllEntries(dir) && i <= |dir|
  {
    forall j :: 0 <= j < i ==> !Names(dir, j, name)
  }

  /** `sector` is sector `x` of the directory. */
  ghost predicate SectorIs(dir: Dir, sector: seq<Byte>, x: nat) {
    |sector| == 512 && 16 * x + 16 <= |dir| && forall j :: 0 <= j < 16 ==> dir[16 * x + j] == EntryOf(sector, j)
  }

  /** One entry of the search: collects a long name, or compares one and forgets it. */
  method ScanEntry(e: seq<Byte>, l: Lfn, name: seq<Byte>, ghost dir: Dir, ghost i: nat, ghost base: Lfn)
    returns (hit: bool, l': Lfn, ghost base': Lfn)
    requires Wf(dir) && i < |dir| && e == dir[i] && InStep(dir, i, l, base)
    ensures hit == Names(dir, i, name) && InStep(dir, i + 1, l', base')
  {
    hide Match, RunBefore, IsRun, LongName, ShortName, Cached, CachedAll;
    if IsText(e) {
      l' := CacheEntry(l, e);
      StepText(dir, i, l, base);
      return false, l', base;
    }
    hit := false;
    if e[0] == 0 || e[0] == 0xE5 || e[11] == 8 || e[11] as int / 2 % 4 != 0 {
      l' := l.(count := 0);
    } else if l.count != 0 {
      NameRead(dir, i, l, base);
      hit := Match(CString(Terminated(l).text), name);
      l' := Terminated(l).(count := 0);
    } else {
      NameRead(dir, i, l, base);
      hit := Match(ShortName(e), name);
      l' := l.(count := 0);
    }
    StepOther(dir, i, l');
    base' := l';
  }

  /** The inner loop of `fatfs_get_file_entry`. */
  method ScanSector(sector: seq<Byte>, x: nat, l: Lfn, name: seq<Byte>, ghost dir: Dir, ghost base: Lfn)
    returns (found: bool, item: nat, l': Lfn, ghost base': Lfn)
    requires Wf(dir) && SectorIs(dir, sector, x) && InStep(dir, 16 * x, l, base) && NoneBefore(dir, name, 16 * x)
    ensures found ==> item < 16 && Resolves(dir, name, 16 * x + item)
    ensures !found ==> InStep(dir, 16 * x + 16, l', base') && NoneBefore(dir, name, 16 * x + 16)
  {
    hide InStep, Names, IsRun, RunBefore;
    l', base', item := l, base, 0;
    while item < 16
      invariant 0 <= item <= 16 && InStep(dir, 16 * x + item, l', base') && NoneBefore(dir, name, 16 * x + item)
    {
      var hit;
      hit, l', base' := ScanEntry(EntryOf(sector, item), l', name, dir, 16 * x + item, base');
      if hit {
        return true, item, l', base';
      }
      item := item + 1;
    }
    found := false;
  }

  lemma GapGrows(dir: Dir, i: nat)
    requires AllEntries(dir) && i < |dir|
    ensures GapStart(dir, i + 1) == if IsTaken(dir[i]) then i + 1 else GapStart(dir, i)
  {
  }

  /** The directory has `need` entries in a row that a new file may overwrite. */
  ghost predicate HasGap(dir: Dir, need: nat)
    requires AllEntries(dir)
  {
    exists p: nat, e: nat :: Gap(dir, p, e) && p + need <= e + 1
  }

  /** No such entries end before entry `i`. */
  ghost predicate NoGapBefore(dir: Dir, need: nat, i: nat)
    requires AllEntries(dir)
  {
    forall p: nat, e: nat :: Gap(dir, p, e) && e < i ==> p + need > e + 1
  }

  /** A gap begins where the last taken entry before it ends. */
  lemma GapBegins(dir: Dir, p: nat, e: nat)
    requires AllEntries(dir) && Gap(dir, p, e)
    ensures p == GapStart(dir, e)
  {
    hide IsText, IsFree, IsTaken, GapStart;
  }

  lemma NoGapStep(dir: Dir, need: nat, i: nat)
    requires AllEntries(dir) && i < |dir| && NoGapBefore(dir, need, i)
    requires IsFree(dir[i]) ==> i + 1 - GapStart(dir, i) < need
    ensures NoGapBefore(dir, need, i + 1)
  {
    hide IsText, IsFree, IsTaken, GapStart;
    forall p: nat, e: nat | Gap(dir, p, e) && e < i + 1
      ensures p + need > e + 1
    {
      if e == i {
        GapBegins(dir, p, e);
      }
    }
  }

  /** `spaces` entries before entry `i` are not taken; the first of them is `first`. */
  ghost predicate Counted(dir: Dir, i: nat, spaces: nat, first: nat)
    requires AllEntries(dir) && i <= |dir|
  {
    spaces == i - GapStart(dir, i) && (spaces > 0 ==> first == GapStart(dir, i))
  }

  /** Counting one more entry. */
  lemma CountOne(dir: Dir, i: nat, spaces: nat, first: nat)
    requires AllEntries(dir) && i < |dir| && Counted(dir, i, spaces, first)
    ensures if IsTaken(dir[i]) then Counted(dir, i + 1, 0, first) else Counted(dir, i + 1, spaces + 1, if spaces == 0 then i else first)
    ensures spaces == i - GapStart(dir, i)
  {
    hide IsTaken;
    GapGrows(dir, i);
  }

  /** What was counted up to a free entry is a gap. */
  lemma CountedGap(dir: Dir, i: nat, spaces: nat, first: nat)
    requires AllEntries(dir) && i < |dir| && Counted(dir, i + 1, spaces, first) && spaces > 0 && IsFree(dir[i])
    ensures Gap(dir, first, i) && first + spaces == i + 1
  {
    hide IsTaken, IsFree, GapStart;
  }

  /** The inner loop of `fatfs_find_free_dir_offset`: stops at the first entry, deleted or
      blank, that completes a gap of `need` entries. */
  method CountSector(sector: seq<Byte>, x: nat, spaces: nat, first: nat, need: nat, ghost dir: Dir)
    returns (found: bool, spaces': nat, first': nat, ghost e: nat)
    requires AllEntries(dir) && SectorIs(dir, sector, x) && Counted(dir, 16 * x, spaces, first) && need >= 1
    requires NoGapBefore(dir, need, 16 * x)
    ensures found ==> Gap(dir, first', e) && first' + need - 1 <= e && NoGapBefore(dir, need, e)
    ensures !found ==> Counted(dir, 16 * x + 16, spaces', first') && NoGapBefore(dir, need, 16 * x + 16)
  {
    hide IsText, GapStart, IsLive, NoGapBefore, Counted, Gap;
    spaces', first', e := spaces, first, 0;
    var item := 0;
    while item < 16
      invariant 0 <= item <= 16 && Counted(dir, 16 * x + item, spaces', first') && NoGapBefore(dir, need, 16 * x + item)
    {
      var entry := EntryOf(sector, item);
      CountOne(dir, 16 * x + item, spaces', first');
      if IsText(entry) {
        if spaces' == 0 {
          first' := 16 * x + item;
        }
        spaces' := spaces' + 1;
      } else if entry[0] == 0xE5 || entry[0] == 0 {
        if spaces' == 0 {
          first' := 16 * x + item;
        }
        spaces' := spaces' + 1;
        if spaces' >= need {
          e := 16 * x + item;
          CountedGap(dir, e, spaces', first');
          return true, spaces', first', e;
        }
      } else {
        spaces' := 0;
      }
      NoGapStep(dir, need, 16 * x + item);
      item := item + 1;
    }
    found := false;
  }
}
