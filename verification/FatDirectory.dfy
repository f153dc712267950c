/** A directory on a FAT volume: its entries are in the sectors of its cluster chain, read
    and written through one shared sector buffer. */
module FatDirectory {
  import opened Bytes
  import opened FatTable
  import opened FatChains
  import opened FatVolume
  import opened FileView
  import opened FileDisk
  import opened LongNames
  import opened DirEntries
  import opened DirScan
  import FatBuffers

  /** Some parts of the name are in the directory; `left` are not yet. */
  ghost predicate Filling(dir: Dir, dir': Dir, first: nat, name: seq<Byte>, sum: Byte, left: nat, file: Dir) {
    && Overwritten(dir, dir', first, file) && |file| + left == EntriesFor(name)
    && first + EntriesFor(name) < |dir|
    && forall k :: 0 <= k < |file| ==> IsPart(file[k], name, EntriesFor(name) - 1 - k, sum)
  }

  /** All of the file's entries are in the directory. */
  ghost predicate Filled(dir: Dir, dir': Dir, first: nat, name: seq<Byte>, sum: Byte, entry: seq<Byte>, file: Dir) {
    && Overwritten(dir, dir', first, file) && |file| == EntriesFor(name) + 1
    && Spells(file[..|file| - 1], name, sum) && file[|file| - 1] == entry
  }

  predicate NewShort(short: seq<Byte>, size: nat, cluster: nat) {
    |short| == 11 && short[0] != 0 && short[0] != 0xE5 && size < 0x1_0000_0000 && cluster < 0x1_0000_0000
  }

  /** The checksum that each part of a long name carries: rotate right, then add. */
  method Checksum(short: seq<Byte>) returns (sum: Byte)
    requires |short| == 11
    ensures sum == ChecksumOf(short, 11)
  {
    sum := 0;
    for i := 0 to 11
      invariant sum == ChecksumOf(short, i)
    {
      sum := RotateAdd(sum, short[i]);
    }
  }

  function Rotated(sum: Byte): (r: nat)
    ensures r < 256
  {
    (if sum % 2 == 1 then 0x80 else 0) + sum as int / 2
  }

  function RotateAdd(sum: Byte, b: Byte): Byte {
    ((Rotated(sum) + b as int) % 256) as Byte
  }

  /** Rotating to the left undoes it. */
  lemma RotatedBack(sum: Byte)
    ensures var r := Rotated(sum); r * 2 % 256 + r / 128 == sum as int
  {
  }

  function ChecksumOf(short: seq<Byte>, n: nat): Byte
    requires n <= |short|
  {
    if n == 0 then 0 else RotateAdd(ChecksumOf(short, n - 1), short[n - 1])
  }

  lemma ChecksumStep(short: seq<Byte>, n: nat)
    requires n < |short|
    ensures ChecksumOf(short, n + 1) == RotateAdd(ChecksumOf(short, n), short[n])
  {
  }

  /** The checksum of a known name, README.TXT. */
  lemma ChecksumOfReadme(short: seq<Byte>)
    requires short == [0x52, 0x45, 0x41, 0x44, 0x4D, 0x45, 0x20, 0x20, 0x54, 0x58, 0x54]
    ensures ChecksumOf(short, 11) == 0x73
  {
    assert ChecksumOf(short, 0) == 0;
    hide ChecksumOf;
    ChecksumStep(short, 0);
    assert ChecksumOf(short, 1) == 82;
    ChecksumStep(short, 1);
    assert ChecksumOf(short, 2) == 110;
    ChecksumStep(short, 2);
    assert ChecksumOf(short, 3) == 120;
    ChecksumStep(short, 3);
    assert ChecksumOf(short, 4) == 128;
    ChecksumStep(short, 4);
    assert ChecksumOf(short, 5) == 141;
    ChecksumStep(short, 5);
    assert ChecksumOf(short, 6) == 11;
    ChecksumStep(short, 6);
    assert ChecksumOf(short, 7) == 165;
    ChecksumStep(short, 7);
    assert ChecksumOf(short, 8) == 242;
    ChecksumStep(short, 8);
    assert ChecksumOf(short, 9) == 205;
    ChecksumStep(short, 9);
    assert ChecksumOf(short, 10) == 62;
    ChecksumStep(short, 10);
  }

  /** The checksum notices every change of a single byte. */
  lemma {:induction false} ChecksumTellsApart(a: seq<Byte>, b: seq<Byte>, k: nat, n: nat)
    requires k < n <= |a| && |b| == |a| && a[k] != b[k] && forall i :: 0 <= i < |a| && i != k ==> a[i] == b[i]
    ensures ChecksumOf(a, n) != ChecksumOf(b, n)
  {
    if k == n - 1 {
      SameSum(a, b, k);
      RotateAddApart(ChecksumOf(a, k), a[k], ChecksumOf(b, k), b[k]);
    } else {
      ChecksumTellsApart(a, b, k, n - 1);
      RotateAddApart(ChecksumOf(a, n - 1), a[n - 1], ChecksumOf(b, n - 1), b[n - 1]);
    }
  }

  lemma {:induction false} SameSum(a: seq<Byte>, b: seq<Byte>, n: nat)
    requires n <= |a| && n <= |b| && forall i :: 0 <= i < n ==> a[i] == b[i]
    ensures ChecksumOf(a, n) == ChecksumOf(b, n)
  {
    if n > 0 {
      SameSum(a, b, n - 1);
    }
  }

  lemma RotateAddApart(s: Byte, x: Byte, t: Byte, y: Byte)
    requires (s == t && x != y) || (s != t && x == y)
    ensures RotateAdd(s, x) != RotateAdd(t, y)
  {
    hide Rotated;
    RotatedApart(s, t);
    ModApart(Rotated(s), x as int, Rotated(t), y as int);
  }

  lemma RotatedApart(s: Byte, t: Byte)
    ensures Rotated(s) == Rotated(t) ==> s == t
  {
  }

  lemma ModApart(a: nat, x: nat, b: nat, y: nat)
    requires a < 256 && x < 256 && b < 256 && y < 256 && ((a == b && x != y) || (a != b && x == y))
    ensures (a + x) % 256 != (b + y) % 256
  {
    assert (a + x) % 256 == if a + x < 256 then a + x else a + x - 256;
    assert (b + y) % 256 == if b + y < 256 then b + y else b + y - 256;
  }

  lemma InGap(dir: Dir, p: nat, e: nat)
    requires AllEntries(dir) && Gap(dir, p, e)
    ensures p <= e < |dir|
  {
  }

  /** A directory in which all entries of a new file were written to a gap. */
  lemma FileAdded(was: Dir, dir: Dir, dir': Dir, first: nat, e: nat, name: seq<Byte>, sum: Byte, entry: seq<Byte>, file: Dir)
    requires DirEntries.Wf(was) && |was| <= |dir| && dir == WithBlanks(was, |dir|) && Gap(dir, first, e)
    requires 1 <= |name| <= 260 && (forall i :: 0 <= i < |name| ==> name[i] != 0) && first + EntriesFor(name) <= e
    requires Filled(dir, dir', first, name, sum, entry, file) && |entry| == 32 && IsLive(entry)
    ensures var m := first + EntriesFor(name); Added(was, dir', m, Spaced(name)) && m < |dir'| && dir'[m] == entry
  {
    hide Gap, IsLive, BlankEntry, OneMore, LongName, IsFile, Spells, Spaced, IsRun, RunBefore, Match, NameOf, Names, Resolves,
      Missing, IsText, IsTaken, IsFree;
    var more := seq(|dir| - |was|, i => BlankEntry());
    assert dir == was + more;
    assert AllBlank(more);
    Lengthened(was, more, []);
    NewFile(file, name, sum);
    RoundTrip(file[..|file| - 1], name, sum);
    Placed(dir, dir', first, e, file);
  }

  lemma AddedWf(dir: Dir, dir': Dir, m: nat, name: seq<Byte>)
    requires Added(dir, dir', m, name)
    ensures DirEntries.Wf(dir')
  {
  }

  /** What a search in the longer directory says about the old one. */
  lemma FoundEntry(dir: Dir, dir': Dir, m: nat, name: seq<Byte>, q: seq<Byte>, found: bool, i: nat)
    requires Added(dir, dir', m, name) && (if found then Resolves(dir', q, i) else Missing(dir', q))
    ensures Match(name, q) && Missing(dir, q) ==> found && i == m
    ensures !Match(name, q) && Missing(dir, q) ==> !found
    ensures !Match(name, q) && !Missing(dir, q) ==> found && i < |dir| && Resolves(dir, q, i) && i < |dir'| && dir'[i] == dir[i]
  {
    hide Match, Names, NameOf, BlankEntry;
    AddedResolution(dir, dir', m, name, q);
    if !Match(name, q) && !Missing(dir, q) {
      FirstOf(dir, q);
      var k :| 0 <= k < |dir| && Resolves(dir, q, k);
      assert Resolves(dir', q, k);
      assert found;
      OnlyOne(dir', q, i, k);
      LiveNames(dir, q, k);
      assert WithBlanks(dir, |dir'|)[k] == dir[k];
    } else if Match(name, q) && Missing(dir, q) && found {
      OnlyOne(dir', q, i, m);
    }
  }

  lemma LiveNames(dir: Dir, q: seq<Byte>, k: nat)
    requires AllEntries(dir) && Resolves(dir, q, k)
    ensures IsLive(dir[k])
  {
  }

  lemma {:induction false} FirstOf(dir: Dir, q: seq<Byte>)
    requires AllEntries(dir) && !Missing(dir, q)
    ensures exists k :: 0 <= k < |dir| && Resolves(dir, q, k)
  {
    hide Names;
    var i :| 0 <= i < |dir| && Names(dir, i, q);
    FirstUpTo(dir, q, i);
  }

  lemma {:induction false} FirstUpTo(dir: Dir, q: seq<Byte>, i: nat)
    requires AllEntries(dir) && i < |dir| && Names(dir, i, q)
    ensures exists k :: 0 <= k < |dir| && Resolves(dir, q, k)
  {
    hide Names;
    if j :| 0 <= j < i && Names(dir, j, q) {
      FirstUpTo(dir, q, j);
    } else {
      assert Resolves(dir, q, i);
    }
  }

  lemma OnlyOne(dir: Dir, q: seq<Byte>, i: nat, k: nat)
    requires AllEntries(dir) && Resolves(dir, q, i) && Resolves(dir, q, k)
    ensures i == k
  {
    hide Names;
  }

  lemma NothingFilled(dir: Dir, first: nat, name: seq<Byte>, sum: Byte)
    requires first + EntriesFor(name) < |dir|
    ensures Filling(dir, dir, first, name, sum, EntriesFor(name), [])
  {
  }

  /** The entries still to come begin in a sector that the directory has. */
  lemma NextSector(dir: Dir, dir': Dir, first: nat, name: seq<Byte>, sum: Byte, left: nat, file: Dir, x: nat, n: nat)
    requires Filling(dir, dir', first, name, sum, left, file) && |dir'| == 16 * n
    requires if file == [] then first / 16 == x else first + |file| == 16 * x
    ensures x < n
  {
  }

  lemma LeftBound(dir: Dir, dir': Dir, first: nat, name: seq<Byte>, sum: Byte, left: nat, file: Dir)
    requires Filling(dir, dir', first, name, sum, left, file) && |name| <= 260
    ensures left <= 20
  {
  }

  lemma FillPart(dir: Dir, sectors: seq<seq<Byte>>, x: nat, sector: seq<Byte>, item: nat, first: nat, name: seq<Byte>, sum: Byte,
                 left: nat, part: seq<Byte>, file: Dir)
    requires x < |sectors| && |sector| == 512 && Whole(sectors[x := sector]) && item < 16 && first + |file| == 16 * x + item
    requires Filling(dir, Entries(sectors[x := sector]), first, name, sum, left + 1, file) && IsPart(part, name, left, sum)
    ensures var sectors' := sectors[x := Spliced(sector, 32 * item, part)];
      Whole(sectors') && Filling(dir, Entries(sectors'), first, name, sum, left, file + [part])
  {
    hide EntryOf, Entries, Spliced, Overwritten;
    EntryWritten(dir, sectors[x := sector], x, item, first, file, part);
    var sector' := Spliced(sector, 32 * item, part);
    assert sectors[x := sector][x := sector'] == sectors[x := sector'];
  }

  lemma FillLast(dir: Dir, sectors: seq<seq<Byte>>, x: nat, sector: seq<Byte>, item: nat, first: nat, name: seq<Byte>, sum: Byte,
                 entry: seq<Byte>, file: Dir)
    requires x < |sectors| && |sector| == 512 && Whole(sectors[x := sector]) && item < 16 && first + |file| == 16 * x + item
    requires Filling(dir, Entries(sectors[x := sector]), first, name, sum, 0, file) && |entry| == 32
    ensures var sectors' := sectors[x := Spliced(sector, 32 * item, entry)];
      Whole(sectors') && Filled(dir, Entries(sectors'), first, name, sum, entry, file + [entry])
  {
    hide EntryOf, Entries, Spliced, Overwritten, IsPart;
    EntryWritten(dir, sectors[x := sector], x, item, first, file, entry);
    var sector' := Spliced(sector, 32 * item, entry);
    assert sectors[x := sector][x := sector'] == sectors[x := sector'];
    assert (file + [entry])[..|file|] == file;
  }

  /** The inner loop of `fatfs_add_file_entry` over the entries of sector `x`: from entry
      `first` on, the parts of the name, the last one first, and then `entry`. */
  method FillSector(sector: seq<Byte>, x: nat, first: nat, name: seq<Byte>, sum: Byte, entry: seq<Byte>, left: nat,
                    ghost sectors: seq<seq<Byte>>, ghost dir: Dir, ghost file: Dir)
    returns (done: bool, sector': seq<Byte>, left': nat, ghost file': Dir)
    requires x < |sectors| && Whole(sectors) && sector == sectors[x] && |entry| == 32 && 1 <= |name| <= 260
    requires Filling(dir, Entries(sectors), first, name, sum, left, file)
    requires if file == [] then first / 16 == x else first + |file| == 16 * x
    ensures |sector'| == 512 && Whole(sectors[x := sector'])
    ensures done ==> Filled(dir, Entries(sectors[x := sector']), first, name, sum, entry, file')
    ensures !done ==> Filling(dir, Entries(sectors[x := sector']), first, name, sum, left', file') && first + |file'| == 16 * x + 16
  {
    hide Filling, Filled, EntryOf, Entries, Spliced, Whole;
    assert |sectors[x]| == 512 by { SectorLength(sectors, x); }
    sector', left', file' := sector, left, file;
    var found, item := first < 16 * x, 0;
    assert sectors[x := sector] == sectors;
    while item < 16
      invariant 0 <= item <= 16 && |sector'| == 512 && Whole(sectors[x := sector'])
      invariant Filling(dir, Entries(sectors[x := sector']), first, name, sum, left', file')
      invariant if found then first + |file'| == 16 * x + item else file' == [] && 16 * x + item <= first < 16 * x + 16
    {
      if !found && 16 * x + item == first {
        found := true;
      }
      if found {
        if left' == 0 {
          FillLast(dir, sectors, x, sector', item, first, name, sum, entry, file');
          return true, Spliced(sector', 32 * item, entry), 0, file' + [entry];
        }
        LeftBound(dir, Entries(sectors[x := sector']), first, name, sum, left', file');
        left' := left' - 1;
        var part := FilenameToLfn(name, left', sum);
        FillPart(dir, sectors, x, sector', item, first, name, sum, left', part, file');
        PartLength(part, name, left', sum);
        sector' := Spliced(sector', 32 * item, part);
        file' := file' + [part];
      }
      item := item + 1;
    }
    done := false;
  }

  lemma SectorLength(sectors: seq<seq<Byte>>, x: nat)
    requires Whole(sectors) && x < |sectors|
    ensures |sectors[x]| == 512
  {
  }

  lemma PartLength(part: seq<Byte>, name: seq<Byte>, left: nat, sum: Byte)
    requires IsPart(part, name, left, sum)
    ensures |part| == 32
  {
  }

  lemma Remainder(x: nat, per: nat)
    requires per > 0
    ensures x % per + 1 <= per
  {
  }

  lemma OneReplaced(disk: seq<seq<Byte>>, disk': seq<seq<Byte>>, x: nat, data: seq<Byte>)
    requires |data| == 512 && Replaced(disk, disk', x, 1, data)
    ensures disk' == disk[x := data]
  {
    assert data[512 * (x - x)..512 * (x - x) + 512] == data;
  }

  lemma NoBlanks(dir: Dir)
    requires AllEntries(dir)
    ensures dir == WithBlanks(dir, |dir|)
  {
  }

  lemma StartCount(dir: Dir, need: nat)
    requires AllEntries(dir)
    ensures Counted(dir, 0, 0, 0) && NoGapBefore(dir, need, 0)
  {
  }

  lemma ThisGap(dir: Dir, need: nat, p: nat, e: nat)
    requires AllEntries(dir) && Gap(dir, p, e) && p + need <= e + 1
    ensures HasGap(dir, need)
  {
    hide Gap;
  }

  lemma NoGapYet(dir: Dir, need: nat, i: nat)
    requires AllEntries(dir) && !HasGap(dir, need)
    ensures NoGapBefore(dir, need, i)
  {
    hide Gap;
  }

  lemma NoGapAtAll(dir: Dir, need: nat)
    requires AllEntries(dir) && NoGapBefore(dir, need, |dir|)
    ensures !HasGap(dir, need)
  {
    forall p: nat, e: nat | Gap(dir, p, e)
      ensures p + need > e + 1
    {
      InGap(dir, p, e);
    }
  }

  /** More sectors of zeros are more blank entries. */
  lemma LongerEntries(was: seq<seq<Byte>>, sectors: seq<seq<Byte>>) returns (more: Dir)
    requires Whole(was) && Whole(sectors) && |was| <= |sectors| && sectors[..|was|] == was
    requires forall x :: |was| <= x < |sectors| ==> sectors[x] == ZeroSector()
    ensures Entries(sectors) == Entries(was) + more == WithBlanks(Entries(was), 16 * |sectors|) && AllBlank(more)
  {
    hide EntryOf;
    var extra := sectors[|was|..];
    assert sectors == was + extra;
    EntriesAppended(was, extra);
    forall x | 0 <= x < |extra|
      ensures extra[x] == ZeroSector()
    {
      assert extra[x] == sectors[|was| + x];
    }
    BlankSectors(extra);
    more := Entries(extra);
    hide Entries, BlankEntry;
    assert more == seq(16 * |extra|, i => BlankEntry());
  }

  /** The gap at the end of a directory that got more sectors. */
  lemma GapInBlanks(was: seq<seq<Byte>>, sectors: seq<seq<Byte>>, spaces: nat, counted: nat, first: nat, need: nat) returns (e: nat)
    requires Whole(was) && Whole(sectors) && |was| < |sectors| && sectors[..|was|] == was
    requires forall x :: |was| <= x < |sectors| ==> sectors[x] == ZeroSector()
    requires Counted(Entries(was), 16 * |was|, spaces, counted) && first == if spaces == 0 then 16 * |was| else counted
    requires 1 <= need <= 16 * (|sectors| - |was|)
    ensures Entries(sectors) == WithBlanks(Entries(was), 16 * |sectors|)
    ensures Gap(Entries(sectors), first, e) && first + need - 1 <= e
  {
    hide Entries, BlankEntry, Gap, GapStart, AllBlank, ZeroSector, WithBlanks;
    var dir := Entries(was);
    var more := LongerEntries(was, sectors);
    e := if first + need > |dir| then first + need - 1 else |dir|;
    GapAtEnd(dir, more, first, e);
  }

  /** The first free cluster is one of the volume's, or there is none. */
  ghost predicate Extendable(v: Volume)
    reads v
    requires v.Valid()
  {
    FirstBlank(v.Fat(), v.rootCluster) < v.limit || FirstBlank(v.Fat(), v.rootCluster) >= |v.Fat()|
  }

  lemma ErasedSectors(v: Volume, was: seq<seq<Byte>>, before: seq<seq<Byte>>, ch: seq<nat>, c: nat)
    requires v.Lba(2) >= 0 && v.perCluster > 0 && Fits(v.media, v.Lba(2), v.perCluster, v.limit, ch + [c])
    requires Fits(was, v.Lba(2), v.perCluster, v.limit, ch + [c]) && Fits(before, v.Lba(2), v.perCluster, v.limit, ch)
    requires |v.media| == |was| == |before| && v.Lba(c) >= 0 && v.Lba(c) + v.perCluster <= |was|
    requires forall x :: v.Lba(2) <= x < |was| ==> was[x] == before[x]
    requires forall x :: 0 <= x < |was| ==> v.media[x] == if v.Lba(c) <= x < v.Lba(c) + v.perCluster then ZeroSector() else was[x]
    ensures var d := Disk(v.media, v.Lba(2), v.perCluster, ch + [c]);
      var d0 := Disk(before, v.Lba(2), v.perCluster, ch);
      |d| == |d0| + v.perCluster && d[..|d0|] == d0 && forall x :: |d0| <= x < |d| ==> d[x] == ZeroSector()
  {
    hide Disk, Volume.Lba, ZeroSector, Place;
    var base, per, limit := v.Lba(2), v.perCluster, v.limit;
    v.LbaFrom(c);
    assert (ch + [c])[|ch|] == c;
    FitsParts(v.media, base, per, limit, ch, c);
    FitsParts(was, base, per, limit, ch, c);
    DiskGrown(v.media, base, per, limit, ch, [c]);
    DiskOutside(was, v.media, base, per, limit, ch, c);
    DiskKept(before, was, base, per, limit, ch);
    forall s | 0 <= s < per
      ensures Disk(v.media, base, per, [c])[s] == ZeroSector()
    {
      DiskOfOne(v.media, base, per, limit, c, s);
    }
  }

  lemma FitsParts(media: seq<seq<Byte>>, base: nat, per: nat, limit: nat, ch: seq<nat>, c: nat)
    requires Fits(media, base, per, limit, ch + [c])
    ensures Fits(media, base, per, limit, ch) && Fits(media, base, per, limit, [c]) && c !in ch && 2 <= c < limit
  {
    var all := ch + [c];
    assert all[|ch|] == c;
    assert forall i :: 0 <= i < |ch| ==> all[i] == ch[i];
  }

  lemma ClusterOnDisk(v: Volume, c: nat)
    requires v.Valid() && 2 <= c < v.limit
    ensures v.Lba(2) <= v.Lba(c) && v.Lba(c) + v.perCluster <= |v.media| && v.perCluster > 0
  {
    hide FatBuffers.Holds, Volume.Lba, Volume.Geometry;
    v.GeometryFacts();
    v.LbaFrom(c);
    v.LbaFrom(v.limit);
    ClusterBefore(c, v.limit, v.perCluster, v.perCluster - 1);
    ClusterBefore(c, v.limit, v.perCluster, 0);
  }

  lemma ChainIsWalk(fat32: bool, t: seq<nat>, limit: nat, ch: seq<nat>)
    requires IsChain(fat32, t, limit, ch) && limit < EndMark(fat32) && |t| < LAST
    ensures |ch| > 0 && IsWalk(fat32, t, ch) && ch[|ch| - 1] < |t| && Next(fat32, t[ch[|ch| - 1]]) == LAST
  {
    hide IsChain;
    ChainEnds(fat32, t, limit, ch);
    forall i | 0 <= i < |ch|
      ensures WalkAt(fat32, t, ch, i)
    {
      NextOnChain(fat32, t, limit, ch, i);
    }
    NextOnChain(fat32, t, limit, ch, |ch| - 1);
  }

  /** The first free cluster linked behind a chain. */
  lemma LongerByOne(fat32: bool, t: seq<nat>, limit: nat, from: nat, ch: seq<nat>, c: nat)
    requires IsChain(fat32, t, limit, ch) && Shape(fat32, t, limit)
    requires from <= c < limit && t[c] == 0 && forall d :: from <= d < c ==> t[d] != 0
    ensures |ch| > 0 && ch[|ch| - 1] < |t|
    ensures var u := t[ch[|ch| - 1] := Stored(fat32, c)][c := Stored(fat32, LAST)];
      IsChain(fat32, u, limit, ch + [c]) && Shape(fat32, u, limit) && Extended(fat32, t, u, from, ch[|ch| - 1], [c])
    ensures c >= 2 && c !in ch
  {
    hide IsChain, Extended;
    ChainEnds(fat32, t, limit, ch);
    var last := ch[|ch| - 1];
    NotExtended(fat32, t, from, last);
    ExtendedStep(fat32, t, t, from, last, [], c);
    var u := t[last := Stored(fat32, c)][c := Stored(fat32, LAST)];
    assert [] + [c] == [c];
    EntriesKept(fat32, t, u, limit, from, last, [c]);
    ExtendedChain(fat32, t, u, limit, from, ch, [c]);
    forall i | 0 <= i < |ch|
      ensures ch[i] != c
    {
      ChainUsed(fat32, t, limit, ch, i);
    }
  }

  lemma StartScan(dir: Dir, l: Lfn)
    requires AllEntries(dir) && LfnOk(l) && l.count == 0
    ensures InStep(dir, 0, l, l)
  {
  }

  lemma SectorEntries(sectors: seq<seq<Byte>>, x: nat)
    requires Whole(sectors) && x < |sectors|
    ensures SectorIs(Entries(sectors), sectors[x], x)
  {
    hide EntryOf;
    forall j | 0 <= j < 16
      ensures Entries(sectors)[16 * x + j] == EntryOf(sectors[x], j)
    {
      assert (16 * x + j) / 16 == x && (16 * x + j) % 16 == j;
    }
  }

  lemma Quotient(x: nat, per: nat, n: nat)
    requires per > 0 && x <= n * per
    ensures x / per <= n
  {
    DivLess(x, n + 1, per);
    Distribute(n, 1, per);
  }

  class Directory {
    const fs: Volume
    const start: nat
    var address: nat              // the sector in the buffer
    var current: seq<Byte>
    ghost var chain: seq<nat>
    ghost var mark: State         // a state since which only the directory's own clusters changed

    ghost predicate Chained()
      reads this, fs
    {
      && fs.Valid() && IsChain(fs.fat32, fs.Fat(), fs.limit, chain) && chain[0] == start
      && Shape(fs.fat32, fs.Fat(), fs.limit) && |current| == 512
    }

    /** The buffer equals its sector. */
    ghost predicate Clean()
      reads this, fs
    {
      address == INVALID || (fs.fatBegin + fs.fatSectors <= address < |fs.media| && current == fs.media[address])
    }

    ghost function Now(): State
      reads this, fs
      requires fs.Valid()
    {
      State(fs.Fat(), fs.media, chain)
    }

    /** What is not the directory's is as it was in state `a`. */
    ghost predicate OthersKept(a: State)
      reads this, fs
      requires fs.Valid()
    {
      Apart(fs.Lba(2), fs.perCluster, fs.limit, a, Now())
    }

    ghost predicate Valid()
      reads this, fs
    {
      Chained() && Clean() && OthersKept(mark)
    }

    ghost function Sectors(): seq<seq<Byte>>
      reads this, fs
    {
      if fs.Lba(2) < 0 then [] else Disk(fs.media, fs.Lba(2), fs.perCluster, chain)
    }

    /** The directory's entries. */
    ghost function Contents(): (dir: Dir)
      reads this, fs
      requires Whole(Sectors())
      ensures |dir| == 16 * |Sectors()| && AllEntries(dir)
    {
      Entries(Sectors())
    }

    lemma SectorFacts()
      requires Chained()
      ensures fs.perCluster > 0 && fs.Lba(2) >= 0 && Fits(fs.media, fs.Lba(2), fs.perCluster, fs.limit, chain)
      ensures Whole(Sectors()) && |Sectors()| == |chain| * fs.perCluster
    {
      hide FatBuffers.Holds, IsChain, Fits, Disk, Shape, Volume.Geometry, Whole, Apart;
      ChainFits(fs, chain);
      DiskWhole(fs.media, fs.Lba(2), fs.perCluster, fs.limit, chain);
    }

    constructor (fs: Volume, start: nat, ghost chain: seq<nat>)
      requires fs.Valid() && IsChain(fs.fat32, fs.Fat(), fs.limit, chain) && chain[0] == start && Shape(fs.fat32, fs.Fat(), fs.limit)
      ensures Valid() && this.fs == fs && this.start == start && this.chain == chain && mark == Now()
    {
      this.fs, this.start, this.chain := fs, start, chain;
      address, current := INVALID, seq(512, i => 0);
      mark := State(fs.Fat(), fs.media, chain);
      ApartSelf(fs.Lba(2), fs.perCluster, fs.limit, State(fs.Fat(), fs.media, chain));
    }

    /** From here on `OthersKept(mark)` speaks of the present state. */
    ghost method Remember()
      requires Valid()
      modifies this`mark
      ensures Valid() && mark == Now()
    {
      ApartSelf(fs.Lba(2), fs.perCluster, fs.limit, Now());
      mark := Now();
    }

    /** The cluster of sector `x`, found by following the chain from its start. */
    method FindCluster(idx: nat) returns (cluster: nat)
      requires Chained() && OthersKept(mark) && idx <= |chain|
      modifies fs`media, fs`buffers
      ensures Chained() && OthersKept(mark) && fs.DataKept(old(fs.media)) && fs.Fat() == old(fs.Fat())
      ensures if idx < |chain| then cluster == chain[idx] && cluster != LAST else cluster == LAST
    {
      hide FatBuffers.Holds, Table, IsChain, Volume.Geometry, Next, Shape, Apart;
      fs.GeometryFacts();
      ChainEnds(fs.fat32, fs.Fat(), fs.limit, chain);
      if idx < |chain| {
        NextOnChain(fs.fat32, fs.Fat(), fs.limit, chain, idx);
      }
      cluster := start;
      var i := 0;
      while i < idx
        invariant Chained() && fs.DataKept(old(fs.media)) && fs.Fat() == old(fs.Fat()) && 0 <= i <= idx
        invariant cluster == if i < |chain| then chain[i] else LAST
      {
        NextOnChain(fs.fat32, fs.Fat(), fs.limit, chain, i);
        cluster := fs.FindNext(cluster);
        i := i + 1;
      }
      ApartMeta(fs, old(fs.media), mark, chain);
    }

    /** Where sector `x` of the directory is on the disk; nowhere behind the last one. */
    method Locate(x: nat) returns (found: bool, lba: nat)
      requires Valid() && x <= |Sectors()|
      modifies fs`media, fs`buffers
      ensures Valid() && fs.Fat() == old(fs.Fat()) && Sectors() == old(Sectors()) && found == (x < |Sectors()|)
      ensures found ==> fs.perCluster > 0 && x / fs.perCluster < |chain| && lba == Place(fs.Lba(2), fs.perCluster, chain, x)
      ensures found ==> fs.fatBegin + fs.fatSectors <= lba < |fs.media| && |fs.media[lba]| == 512 && fs.media[lba] == Sectors()[x]
    {
      hide FatBuffers.Holds, Table, IsChain, Volume.Geometry, Shape, Fits, Disk, Place, Volume.Lba, Whole, Apart;
      SectorFacts();
      fs.GeometryFacts();
      DivLess(x, |chain|, fs.perCluster);
      Quotient(x, fs.perCluster, |chain|);
      var cluster := FindCluster(x / fs.perCluster);
      SameDisk(fs, old(fs.media), chain);
      SectorFacts();
      if cluster == LAST {
        return false, 0;
      }
      LbaIsPlace(fs, chain, x);
      DiskAt(fs.media, fs.Lba(2), fs.perCluster, fs.limit, chain, x);
      return true, fs.Lba(cluster) + (x - x / fs.perCluster * fs.perCluster);
    }

    method Load(lba: nat)
      requires Valid() && fs.fatBegin + fs.fatSectors <= lba < |fs.media| && |fs.media[lba]| == 512
      modifies this`address, this`current
      ensures Valid() && address == lba && current == fs.media[lba]
    {
      hide FatBuffers.Holds, Table, IsChain, Volume.Geometry, Shape, Apart;
      fs.GeometryFacts();
      if lba != address {
        address := lba;
        current := fs.ReadMedia(lba, 1);
      }
    }

    /** `fatfs_sector_reader`: sector `x` of the directory into the buffer, unless it is
        there already; fails behind the last one. */
    method SectorReader(x: nat) returns (ok: bool)
      requires Valid() && x <= |Sectors()|
      modifies fs`media, fs`buffers, this`address, this`current
      ensures Valid() && fs.Fat() == old(fs.Fat()) && Sectors() == old(Sectors()) && ok == (x < |Sectors()|)
      ensures ok ==> fs.perCluster > 0 && x / fs.perCluster < |chain| && address == Place(fs.Lba(2), fs.perCluster, chain, x)
      ensures ok ==> current == Sectors()[x]
    {
      hide FatBuffers.Holds, Table, IsChain, Volume.Geometry, Shape, Disk, Place, Volume.Lba, Apart;
      var lba;
      ok, lba := Locate(x);
      if ok {
        Load(lba);
      }
    }

    // ---------- finding a name ----------

    /** `fatfs_get_file_entry`: the entry that the name resolves to, if there is one. */
    method GetFileEntry(name: seq<Byte>) returns (found: bool, entry: seq<Byte>, ghost i: nat)
      requires Valid() && Whole(Sectors()) && DirEntries.Wf(Contents())
      modifies fs`media, fs`buffers, this`address, this`current
      ensures Valid() && Sectors() == old(Sectors()) && fs.Fat() == old(fs.Fat())
      ensures found ==> Resolves(Entries(old(Sectors())), name, i) && entry == Entries(old(Sectors()))[i]
      ensures !found ==> Missing(Entries(old(Sectors())), name)
    {
      hide FatBuffers.Holds, Table, IsChain, Volume.Geometry, Shape, Disk, Place, Volume.Lba, DirEntries.Wf, InStep, Names, EntryOf, Apart;
      ghost var dir := Contents();
      var l, x := Lfn(seq(261, i => 0), 0), 0;
      ghost var base := l;
      StartScan(dir, l);
      while true
        invariant Valid() && Sectors() == old(Sectors()) && fs.Fat() == old(fs.Fat()) && 0 <= x <= |Sectors()|
        invariant InStep(dir, 16 * x, l, base) && NoneBefore(dir, name, 16 * x)
        decreases |Sectors()| - x
      {
        var ok := SectorReader(x);
        if !ok {
          return false, [], 0;
        }
        SectorEntries(Sectors(), x);
        var item;
        found, item, l, base := ScanSector(current, x, l, name, dir, base);
        if found {
          return true, EntryOf(current, item), 16 * x + item;
        }
        x := x + 1;
      }
    }

    // ---------- making room ----------

    /** Writes zeros over every sector of cluster `c`. */
    method Erase(c: nat)
      requires Chained() && 2 <= c < fs.limit && c in chain && OthersKept(mark)
      modifies fs`media, this`address, this`current
      ensures Valid() && fs.Fat() == old(fs.Fat()) && |fs.media| == old(|fs.media|)
      ensures 0 <= fs.Lba(c) && fs.Lba(c) + fs.perCluster <= |fs.media|
      ensures forall x :: 0 <= x < |fs.media| ==>
        fs.media[x] == if fs.Lba(c) <= x < fs.Lba(c) + fs.perCluster then ZeroSector() else old(fs.media)[x]
    {
      hide FatBuffers.Holds, Table, IsChain, Volume.Geometry, Shape, Volume.Lba, ZeroSector, Apart;
      fs.GeometryFacts();
      ClusterOnDisk(fs, c);
      current := ZeroSector();
      var lba, i := fs.Lba(c), 0;
      while i < fs.perCluster
        invariant 0 <= i <= fs.perCluster && Chained() && fs.Fat() == old(fs.Fat()) && |fs.media| == old(|fs.media|)
        invariant current == ZeroSector() && (i > 0 ==> address == lba + i - 1)
        invariant forall x :: 0 <= x < |fs.media| ==> fs.media[x] == if lba <= x < lba + i then ZeroSector() else old(fs.media)[x]
      {
        address := lba + i;
        fs.WriteMedia(address, 1, current);
        assert current[512 * 0..512 * 0 + 512] == current;
        assert fs.media[lba + i + 0] == current;
        i := i + 1;
      }
      fs.LbaFrom(c);
      ApartErased(fs.Lba(2), fs.perCluster, fs.limit, mark, old(Now()), fs.media, c);
    }

    /** The extension in `fatfs_find_free_dir_offset`: one more cluster, the first free one,
        filled with zeros. */
    method Extend() returns (ok: bool)
      requires Valid() && Extendable(fs)
      modifies fs`media, fs`buffers, fs`sectors, this`address, this`current, this`chain
      ensures Valid() && ok == (FirstBlank(old(fs.Fat()), fs.rootCluster) < fs.limit)
      ensures !ok ==> Sectors() == old(Sectors()) && fs.Fat() == old(fs.Fat())
      ensures ok ==> |Sectors()| == |old(Sectors())| + fs.perCluster && Sectors()[..|old(Sectors())|] == old(Sectors())
      ensures ok ==> forall x :: |old(Sectors())| <= x < |Sectors()| ==> Sectors()[x] == ZeroSector()
    {
      hide FatBuffers.Holds, Table, IsChain, Volume.Geometry, Shape, Volume.Lba, ZeroSector, Disk, Fits, FirstBlank, Stored,
        IsWalk, Place, Apart;
      SectorFacts();
      fs.GeometryFacts();
      ghost var t, ch := fs.Fat(), chain;
      BlankFacts(t, fs.rootCluster);
      var c;
      ok, c := fs.FindBlank(fs.rootCluster);
      SameDisk(fs, old(fs.media), ch);
      if !ok {
        ApartMeta(fs, old(fs.media), mark, ch);
        return;
      }
      LongerByOne(fs.fat32, t, fs.limit, fs.rootCluster, ch, c);
      ChainIsWalk(fs.fat32, t, fs.limit, ch);
      var added := fs.AddToChain(start, c, ch);
      chain := ch + [c];
      ApartGrow(fs, old(fs.media), mark, t, ch, [c]);
      ghost var was := fs.media;
      SectorFacts();
      Erase(c);
      SectorFacts();
      ErasedSectors(fs, was, old(fs.media), ch, c);
    }

    /** The search of `fatfs_find_free_dir_offset` through the sectors there are. */
    method SearchGap(need: nat) returns (ok: bool, x: nat, spaces: nat, first: nat, ghost e: nat)
      requires Valid() && Whole(Sectors()) && need >= 1
      modifies fs`media, fs`buffers, this`address, this`current
      ensures Valid() && Sectors() == old(Sectors()) && fs.Fat() == old(fs.Fat())
      ensures ok <==> HasGap(Contents(), need)
      ensures ok ==> Gap(Contents(), first, e) && first + need - 1 <= e && NoGapBefore(Contents(), need, e)
      ensures !ok ==> x == |Sectors()| && Counted(Contents(), 16 * x, spaces, first)
    {
      hide FatBuffers.Holds, Table, IsChain, Volume.Geometry, Shape, Volume.Lba, Disk, Place, Gap, Counted, EntryOf, NoGapBefore,
        Apart, HasGap;
      ghost var dir := Contents();
      first, e := 0, 0;
      x, spaces := 0, 0;
      StartCount(dir, need);
      while true
        invariant Valid() && Sectors() == old(Sectors()) && fs.Fat() == old(fs.Fat()) && 0 <= x <= |Sectors()|
        invariant Counted(dir, 16 * x, spaces, first) && NoGapBefore(dir, need, 16 * x)
        decreases |Sectors()| - x
      {
        ok := SectorReader(x);
        if !ok {
          NoGapAtAll(dir, need);
          return;
        }
        SectorEntries(Sectors(), x);
        ok, spaces, first, e := CountSector(current, x, spaces, first, need, dir);
        if ok {
          ThisGap(dir, need, first, e);
          return;
        }
        x := x + 1;
      }
    }

    /** `fatfs_find_free_dir_offset`: the first gap that takes `need` entries; at the end of
        the directory it may be made longer for them, by one cluster. */
    method FindFreeOffset(need: nat) returns (ok: bool, first: nat, ghost e: nat)
      requires Valid() && Whole(Sectors()) && (HasGap(Contents(), need) || (Extendable(fs) && need <= 16 * fs.perCluster))
      modifies fs`media, fs`buffers, fs`sectors, this`address, this`current, this`chain
      ensures Valid() && Whole(Sectors()) && |old(Sectors())| <= |Sectors()|
      ensures Contents() == WithBlanks(old(Contents()), |Contents()|)
      ensures ok ==> Gap(Contents(), first, e) && first + need - 1 <= e && need >= 1 && NoGapBefore(old(Contents()), need, e)
      ensures !ok || old(HasGap(Contents(), need)) ==> Sectors() == old(Sectors()) && fs.Fat() == old(fs.Fat())
      ensures ok <==> need >= 1 && (old(HasGap(Contents(), need)) || FirstBlank(old(fs.Fat()), fs.rootCluster) < fs.limit)
    {
      hide FatBuffers.Holds, Table, IsChain, Volume.Geometry, Shape, Volume.Lba, Disk, FirstBlank, Place, Gap, Counted, Entries,
        BlankEntry, HasGap, NoGapBefore, Apart;
      NoBlanks(Contents());
      first, e := 0, 0;
      if need == 0 {
        return false, 0, 0;
      }
      var x, spaces;
      ok, x, spaces, first, e := SearchGap(need);
      if ok {
        return;
      }
      ok := Extend();
      if ok {
        SectorFacts();
        ghost var counted := first;
        if spaces == 0 {
          first := 16 * x;
        }
        e := GapInBlanks(old(Sectors()), Sectors(), spaces, counted, first, need);
        NoGapYet(old(Contents()), need, e);
      }
    }

    // ---------- writing the entries ----------

    /** Writes the buffer, which holds sector `x`, back to the disk. */
    method WriteCurrent(ghost x: nat)
      requires Chained() && OthersKept(mark) && x < |Sectors()| && fs.perCluster > 0 && x / fs.perCluster < |chain|
      requires fs.Lba(2) >= 0 && address == Place(fs.Lba(2), fs.perCluster, chain, x)
      modifies fs`media
      ensures Valid() && Sectors() == old(Sectors())[x := current] && fs.Fat() == old(fs.Fat())
    {
      hide FatBuffers.Holds, Table, IsChain, Volume.Geometry, Shape, Volume.Lba, Disk, Place, Fits, Apart;
      SectorFacts();
      fs.GeometryFacts();
      Remainder(x, fs.perCluster);
      RunInside(fs.media, fs.Lba(2), fs.perCluster, fs.limit, chain, x, 1);
      ghost var was := fs.media;
      fs.WriteMedia(address, 1, current);
      SectorFacts();
      assert current[512 * 0..512 * 0 + 512] == current;
      assert fs.media[address + 0] == current;
      DiskWritten(was, fs.media, fs.Lba(2), fs.perCluster, fs.limit, chain, x, 1, current);
      ApartWritten(fs.Lba(2), fs.perCluster, fs.limit, old(Now()), fs.media, x, 1);
      ApartTrans(fs.Lba(2), fs.perCluster, fs.limit, mark, old(Now()), Now());
      OneReplaced(old(Sectors()), Sectors(), x, current);
    }

    /** The outer loop of `fatfs_add_file_entry`, from the sector where the gap begins. */
    method WriteEntries(first: nat, name: seq<Byte>, sum: Byte, entry: seq<Byte>) returns (ghost file: Dir)
      requires Valid() && Whole(Sectors()) && 1 <= |name| <= 260 && |entry| == 32 && first + EntriesFor(name) < |Contents()|
      modifies fs`media, fs`buffers, this`address, this`current
      ensures Valid() && Whole(Sectors()) && |Sectors()| == |old(Sectors())| && fs.Fat() == old(fs.Fat())
      ensures Filled(old(Contents()), Contents(), first, name, sum, entry, file)
    {
      hide FatBuffers.Holds, Table, IsChain, Volume.Geometry, Shape, Volume.Lba, Disk, Place, Filling, Filled, Entries, Whole, Apart;
      ghost var dir := Contents();
      var x, left, done := first / 16, EntriesFor(name), false;
      file := [];
      NothingFilled(dir, first, name, sum);
      while !done
        invariant Valid() && Whole(Sectors()) && |Sectors()| == |old(Sectors())| && fs.Fat() == old(fs.Fat())
        invariant !done ==> Filling(dir, Contents(), first, name, sum, left, file)
        invariant !done ==> if file == [] then first / 16 == x else first + |file| == 16 * x
        invariant done ==> Filled(dir, Contents(), first, name, sum, entry, file)
        decreases if done then 0 else 1, |Sectors()| - x
      {
        NextSector(dir, Contents(), first, name, sum, left, file, x, |Sectors()|);
        var ok := SectorReader(x);
        ghost var sectors := Sectors();
        SectorFacts();
        var sector;
        done, sector, left, file := FillSector(current, x, first, name, sum, entry, left, sectors, dir, file);
        current := sector;
        WriteCurrent(x);
        x := x + 1;
      }
    }

    /** `fatfs_add_file_entry`: refuses an empty name; otherwise the entries of the new file
        go to a gap of the directory, which gets another cluster if it has none. It fails
        exactly if the volume has no cluster left for that. No other file changes. */
    method AddFileEntry(name: seq<Byte>, short: seq<Byte>, cluster: nat, size: nat, isDir: bool) returns (ok: bool, ghost m: nat)
      requires Valid() && Whole(Sectors()) && DirEntries.Wf(Contents())
      requires HasGap(Contents(), EntriesFor(name) + 1) || (Extendable(fs) && EntriesFor(name) < 16 * fs.perCluster)
      requires |name| <= 260 && (forall i :: 0 <= i < |name| ==> name[i] != 0) && NewShort(short, size, cluster)
      modifies fs`media, fs`buffers, fs`sectors, this`address, this`current, this`chain, this`mark
      ensures Valid() && Whole(Sectors()) && (!ok ==> Sectors() == old(Sectors()) && fs.Fat() == old(fs.Fat())) && OthersKept(old(Now()))
      ensures ok <==> name != [] && (old(HasGap(Contents(), EntriesFor(name) + 1)) || FirstBlank(old(fs.Fat()), fs.rootCluster) < fs.limit)
      ensures ok ==> Added(old(Contents()), Contents(), m, Spaced(name)) && m < |Contents()|
      ensures ok ==> Contents()[m] == ShortEntry(short, size, cluster, isDir)
    {
      hide FatBuffers.Holds, Table, IsChain, Volume.Geometry, Shape, Volume.Lba, Disk, Place, Filled, Entries, DirEntries.Wf,
        Added, Gap, ShortEntry, FirstBlank, Spaced, WithBlanks, Whole, Apart;
      m := 0;
      Remember();
      var need := EntriesFor(name);
      if need == 0 {
        return false, 0;
      }
      var first;
      ghost var e;
      ok, first, e := FindFreeOffset(need + 1);
      if !ok {
        return;
      }
      var sum := Checksum(short);
      var entry := ShortEntry(short, size, cluster, isDir);
      ghost var dir := Contents();
      InGap(dir, first, e);
      ghost var file := WriteEntries(first, name, sum, entry);
      m := first + need;
      ShortEntryReads(short, size, cluster, isDir);
      FileAdded(old(Contents()), dir, Contents(), first, e, name, sum, entry, file);
    }

    /** Adding a file and then looking for any name `q`. */
    method AddThenFind(name: seq<Byte>, short: seq<Byte>, cluster: nat, size: nat, isDir: bool, q: seq<Byte>)
      returns (ok: bool, found: bool, entry: seq<Byte>, ghost i: nat)
      requires Valid() && Whole(Sectors()) && DirEntries.Wf(Contents())
      requires HasGap(Contents(), EntriesFor(name) + 1) || (Extendable(fs) && EntriesFor(name) < 16 * fs.perCluster)
      requires |name| <= 260 && (forall i :: 0 <= i < |name| ==> name[i] != 0) && NewShort(short, size, cluster)
      modifies fs`media, fs`buffers, fs`sectors, this`address, this`current, this`chain, this`mark
      ensures ok && Match(Spaced(name), q) && Missing(old(Contents()), q) ==> found && entry == ShortEntry(short, size, cluster, isDir)
      ensures ok && !Match(Spaced(name), q) && Missing(old(Contents()), q) ==> !found
      ensures ok && !Match(Spaced(name), q) && !Missing(old(Contents()), q) ==>
        found && i < |old(Contents())| && Resolves(old(Contents()), q, i) && entry == old(Contents())[i]
    {
      hide FatBuffers.Holds, Table, IsChain, Volume.Geometry, Shape, Volume.Lba, Disk, Entries, DirEntries.Wf, Added, FirstBlank,
        Match, Spaced, ShortEntry, Missing, Resolves, Whole, Apart;
      ghost var dir, m := Contents(), 0;
      ok, m := AddFileEntry(name, short, cluster, size, isDir);
      found, entry, i := false, [], 0;
      if ok {
        ghost var dir' := Contents();
        AddedWf(dir, dir', m, Spaced(name));
        AddedResolution(dir, dir', m, Spaced(name), q);
        found, entry, i := GetFileEntry(q);
        FoundEntry(dir, dir', m, Spaced(name), q, found, i);
      }
    }
  }
}
