/** A mounted FAT volume: its disk, its FAT buffers, and the operations on the table. */
module FatVolume {
  import opened Bytes
  import opened FatTable
  import opened FatBuffers
  import opened FatChains

  /** The first free entry from `from` on; the table's length if there is none. */
  function FirstBlank(t: seq<nat>, from: nat): (c: nat)
    ensures from <= |t| ==> from <= c <= |t|
    ensures c < |t| ==> t[c] == 0
    ensures forall d :: from <= d < |t| && d < c ==> t[d] != 0
    decreases |t| - from
  {
    if from >= |t| then |t| else if t[from] == 0 then from else FirstBlank(t, from + 1)
  }

  lemma NextBlank(t: seq<nat>, from: nat)
    ensures FirstBlank(t, from) == if from >= |t| then |t| else if t[from] == 0 then from else FirstBlank(t, from + 1)
  {
  }

  lemma DivLess(c: nat, n: nat, per: nat)
    requires per > 0
    ensures c / per < n <==> c < n * per
  {
    if c / per < n {
      assert c / per * per <= (n - 1) * per;
    } else {
      assert c / per * per >= n * per;
    }
  }

  lemma BlankFacts(t: seq<nat>, from: nat)
    ensures var c := FirstBlank(t, from);
      && (c < |t| ==> t[c] == 0 && from <= c && forall d :: from <= d < c ==> t[d] != 0)
      && (c >= |t| ==> forall d :: from <= d < |t| ==> t[d] != 0)
  {
  }

  /** The search ends inside the volume exactly if a cluster of the volume is free. */
  lemma BlankInside(t: seq<nat>, from: nat, limit: nat)
    requires limit <= |t|
    ensures FirstBlank(t, from) < limit <==> Blanks(t, from, limit) != {}
  {
    hide FirstBlank;
    BlankFacts(t, from);
    var c := FirstBlank(t, from);
    if c < limit {
      assert c in Blanks(t, from, limit);
    }
  }

  /** Taking a free entry leaves the others. */
  lemma TakenBlank(t: seq<nat>, from: nat, limit: nat, c: nat, v: nat)
    requires c < |t| && t[c] == 0 && v != 0 && from <= c
    ensures |Blanks(t[c := v], from, limit)| == |Blanks(t, from, limit)| - (if c < limit then 1 else 0)
  {
    assert Blanks(t[c := v], from, limit) == Blanks(t, from, limit) - {c};
  }

  lemma NotExtended(fat32: bool, t: seq<nat>, from: nat, last: nat)
    requires last < |t|
    ensures Extended(fat32, t, t, from, last, [])
  {
  }

  ghost predicate WalkAt(fat32: bool, t: seq<nat>, path: seq<nat>, i: nat)
    requires i < |path|
  {
    && 0 < path[i] < |t|
    && var next := Next(fat32, t[path[i]]); if i + 1 < |path| then next == path[i + 1] else next == 0 || next == LAST
  }

  /** The clusters met by following links from `path[0]` to an end mark or a free entry. */
  ghost predicate IsWalk(fat32: bool, t: seq<nat>, path: seq<nat>) {
    |path| > 0 && |t| < LAST && forall i {:trigger WalkAt(fat32, t, path, i)} :: 0 <= i < |path| ==> WalkAt(fat32, t, path, i)
  }

  class Volume {
    const fat32: bool
    const fatBegin: nat       // first sector of the FAT
    const fatSectors: nat
    const infoLba: nat        // the FSInfo sector of a FAT32 volume
    const clusterBegin: nat   // first sector after the FATs
    const rootEntries: nat    // entries of the fixed root directory of a FAT16 volume
    const rootCluster: nat    // 0 on FAT16
    const perCluster: nat     // sectors of a cluster
    const limit: nat          // clusters of the volume are numbered from 2 to below this

    var media: seq<seq<Byte>>
    var buffers: seq<Buffer>
    var nextFree: nat
    ghost var sectors: seq<seq<Byte>>

    ghost function Info(): nat {
      if fat32 then infoLba else 0
    }

    /** `fatfs_lba_of_cluster`. */
    function Lba(c: nat): (lba: int) {
      if fat32 then clusterBegin + (c - 2) * perCluster else clusterBegin + rootEntries * 32 / 512 + (c - 2) * perCluster
    }

    lemma LbaFrom(c: nat)
      ensures Lba(c) == Lba(2) + (c - 2) * perCluster
    {
    }

    ghost predicate Valid()
      reads this
    {
      && Holds(buffers, media, sectors, fatBegin, Info()) && |sectors| == fatSectors && Geometry(|media|)
    }

    /** The FAT ends before the data and has entries for all clusters, which its links can
        name; the clusters end before the disk does. */
    ghost predicate Geometry(size: nat) {
      && Info() < fatBegin && fatBegin + fatSectors <= clusterBegin && 1 <= perCluster
      && rootCluster < limit && 2 < limit <= fatSectors * PerSector(fat32) < LAST && limit < EndMark(fat32)
      && Lba(limit) <= size
    }

    /** `fatfs_fat_init` on a volume whose parameters were read: no sector is buffered. */
    constructor (fat32: bool, fatBegin: nat, fatSectors: nat, infoLba: nat, clusterBegin: nat, rootEntries: nat, rootCluster: nat,
                 perCluster: nat, limit: nat, media: seq<seq<Byte>>, buffers: nat)
      requires buffers > 0 && Whole(media) && fatBegin + fatSectors <= |media| < INVALID
      requires (if fat32 then infoLba else 0) < fatBegin && fatBegin + fatSectors <= clusterBegin && 1 <= perCluster
      requires rootCluster < limit && 2 < limit <= fatSectors * PerSector(fat32) < LAST && limit < EndMark(fat32)
      requires (if fat32 then clusterBegin else clusterBegin + rootEntries * 32 / 512) + (limit - 2) * perCluster <= |media|
      ensures Valid() && this.media == media && sectors == media[fatBegin..fatBegin + fatSectors]
      ensures this.fat32 == fat32 && this.limit == limit && this.rootCluster == rootCluster && this.perCluster == perCluster
      ensures this.fatBegin == fatBegin && this.infoLba == infoLba
      ensures Lba(2) == if fat32 then clusterBegin else clusterBegin + rootEntries * 32 / 512
    {
      this.fat32, this.fatBegin, this.fatSectors, this.infoLba := fat32, fatBegin, fatSectors, infoLba;
      this.clusterBegin, this.rootEntries, this.rootCluster := clusterBegin, rootEntries, rootCluster;
      this.perCluster, this.limit := perCluster, limit;
      this.media, nextFree, sectors := media, 0, media[fatBegin..fatBegin + fatSectors];
      this.buffers := seq(buffers, i => Buffer(INVALID, false, seq(512, j => 0)));
    }

    /** The FAT as its users see it. */
    ghost function Fat(): seq<nat>
      reads this
      requires Valid()
    {
      Table(fat32, sectors)
    }

    lemma GeometryFacts()
      requires Valid()
      ensures 2 < limit <= |Fat()| < LAST && rootCluster < |Fat()| && limit < EndMark(fat32)
      ensures Info() < fatBegin && perCluster >= 1 && fatBegin + fatSectors <= Lba(2) && Lba(limit) <= |media| < INVALID
    {
      hide BuffersOk, DiskOk;
    }

    /** Every sector is as it was, but for the FAT and the FSInfo sector of a FAT32 volume. */
    ghost predicate DataKept(was: seq<seq<Byte>>)
      reads this
    {
      && |media| == |was|
      && forall x :: 0 <= x < |was| && !(fatBegin <= x < fatBegin + |sectors|) && !(fat32 && x == infoLba) ==> media[x] == was[x]
    }

    ghost function InfoSector(disk: seq<seq<Byte>>): seq<Byte> {
      if fat32 && infoLba < |disk| then disk[infoLba] else []
    }

    ghost predicate InfoKept(was: seq<seq<Byte>>)
      reads this
    {
      InfoSector(media) == InfoSector(was)
    }

    /** A next-free hint is withdrawn on FAT32, in memory and in the FSInfo sector, whose
        other bytes stay; without a hint, and on FAT16, nothing is done. */
    ghost predicate HintGone(was: seq<Byte>, hint: nat)
      reads this
    {
      if fat32 && hint != LAST then
        nextFree == LAST && |was| == 512 && InfoSector(media) == Spliced(was, 492, [255, 255, 255, 255])
      else
        nextFree == hint && InfoSector(media) == was
    }

    // ---------- buffers ----------

    /** `fatfs_fat_writeback` of a dirty buffer: one sector, never beyond the FAT. */
    method WriteBack(i: nat)
      requires Valid() && i < |buffers| && buffers[i].dirty
      modifies this`media, this`buffers
      ensures Valid() && DataKept(old(media)) && InfoKept(old(media))
      ensures var b := old(buffers)[i];
        && fatBegin <= b.address < fatBegin + fatSectors <= |media| && media == old(media)[b.address := b.data]
        && buffers == old(buffers)[i := b.(dirty := false)]
    {
      hide Holds, Geometry;
      GeometryFacts();
      WrittenBack(buffers, media, sectors, fatBegin, Info(), i);
      var b := buffers[i];
      var offset := b.address - fatBegin;
      var count := if offset + 1 <= fatSectors then 1 else fatSectors - offset;
      assert count == 1;
      media := media[b.address := b.data];
      buffers := buffers[i := b.(dirty := false)];
    }

    /** The buffer that holds a sector, or the number of buffers if none does. */
    method FindBuffer(lba: nat) returns (i: nat)
      requires lba < INVALID && forall j :: 0 <= j < |buffers| ==> buffers[j].address <= INVALID
      ensures i <= |buffers| && (i < |buffers| ==> buffers[i].address == lba)
      ensures forall j :: 0 <= j < i ==> buffers[j].address != lba
    {
      i := 0;
      while i < |buffers| && !(buffers[i].address <= lba < (buffers[i].address + 1) % 0x1_0000_0000)
        invariant 0 <= i <= |buffers|
        invariant forall j :: 0 <= j < i ==> buffers[j].address != lba
      {
        i := i + 1;
      }
    }

    /** `fatfs_fat_read_sector`: the buffer that holds a sector, after giving it the
        place of the oldest one if none did. */
    method ReadSector(lba: nat) returns (i: nat)
      requires Valid() && (lba == Info() || fatBegin <= lba < fatBegin + |sectors|)
      modifies this`media, this`buffers
      ensures Valid() && DataKept(old(media)) && InfoKept(old(media)) && i < |buffers| && buffers[i].address == lba
    {
      hide DiskOk, Geometry;
      i := FindBuffer(lba);
      if i < |buffers| {
        return;
      }
      hide BufferOk;
      Rotated(buffers, media, sectors, fatBegin, Info());
      var last := |buffers| - 1;
      buffers := [buffers[last]] + buffers[..last];
      if buffers[0].dirty {
        WriteBack(0);
      }
      Loaded(buffers, media, sectors, fatBegin, Info(), lba);
      buffers := buffers[0 := Buffer(lba, false, media[lba])];
      i := 0;
    }

    /** `fatfs_fat_purge`: afterwards the disk's FAT is the table. */
    method Purge()
      requires Valid()
      modifies this`media, this`buffers
      ensures Valid() && DataKept(old(media)) && fatBegin + |sectors| <= |media|
      ensures media[fatBegin..fatBegin + |sectors|] == sectors
    {
      hide Holds, Geometry;
      var i := 0;
      while i < |buffers|
        invariant Valid() && DataKept(old(media)) && 0 <= i <= |buffers|
        invariant forall j :: 0 <= j < i ==> !buffers[j].dirty
      {
        if buffers[i].dirty {
          WriteBack(i);
        }
        i := i + 1;
      }
      CleanDisk(buffers, media, sectors, fatBegin, Info());
    }

    // ---------- table operations ----------

    /** The buffered entry of a cluster. */
    function Buffered(i: nat, c: nat): nat
      reads this
      requires i < |buffers| && |buffers[i].data| == 512
    {
      Entry(fat32, buffers[i].data, c % PerSector(fat32))
    }

    /** The buffer that holds the entry of a cluster. */
    method LoadEntry(c: nat) returns (i: nat)
      requires Valid() && c < |Fat()|
      modifies this`media, this`buffers
      ensures Valid() && DataKept(old(media)) && InfoKept(old(media)) && i < |buffers| && |buffers[i].data| == 512
      ensures buffers[i].address == fatBegin + c / PerSector(fat32) < fatBegin + |sectors|
      ensures buffers[i].data == sectors[c / PerSector(fat32)] && Buffered(i, c) == Fat()[c]
    {
      hide DiskOk, Entry, Geometry;
      assert c / PerSector(fat32) < |sectors|;
      i := ReadSector(fatBegin + c / PerSector(fat32));
      assert BufferOk(buffers[i], media, sectors, fatBegin, Info());
    }

    /** `fatfs_find_next_cluster`: the link of a cluster; cluster 0 stands for 2. */
    method FindNext(c: nat) returns (next: nat)
      requires Valid() && c < |Fat()|
      modifies this`media, this`buffers
      ensures Valid() && DataKept(old(media)) && InfoKept(old(media)) && next == Next(fat32, Fat()[if c == 0 then 2 else c])
    {
      hide Holds, Entry, Geometry;
      GeometryFacts();
      var cluster := if c == 0 then 2 else c;
      var i := LoadEntry(cluster);
      next := Buffered(i, cluster);
      if (if fat32 then next >= 0x0FFF_FFF8 else next >= 0xFFF8) {
        next := LAST;
      }
    }

    /** `fatfs_fat_set_cluster`: one entry changes. */
    method SetCluster(c: nat, v: nat)
      requires Valid() && c < |Fat()|
      modifies this`media, this`buffers, this`sectors
      ensures Valid() && DataKept(old(media)) && InfoKept(old(media)) && Fat() == old(Fat())[c := Stored(fat32, v)]
    {
      hide DiskOk, BuffersOk, Entry, Stored, Rewritten, Geometry;
      var i := LoadEntry(c);
      var k, j := c / PerSector(fat32), c % PerSector(fat32);
      var data := Rewritten(fat32, buffers[i].data, j, v);
      Touched(buffers, media, sectors, fatBegin, Info(), i, data);
      SectorWritten(fat32, sectors, c, v);
      buffers := buffers[i := buffers[i].(dirty := true, data := data)];
      sectors := sectors[k := data];
    }

    /** `fatfs_set_fs_info_next_free_cluster`: the hint goes to the FSInfo sector of a
        FAT32 volume; neither the rest of that sector nor the FAT changes. */
    method SetNextFree(v: nat)
      requires Valid()
      modifies this`media, this`buffers, this`nextFree
      ensures Valid() && DataKept(old(media))
      ensures fat32 ==> nextFree == v && infoLba < |media| && |old(media)[infoLba]| == 512
      ensures fat32 ==> media[infoLba] == Spliced(old(media)[infoLba], 492, Bytes32(v))
      ensures fat32 ==> |media[infoLba]| == 512 && Word32(media[infoLba], 492) == v % 0x1_0000_0000
      ensures !fat32 ==> nextFree == old(nextFree) && media == old(media) && buffers == old(buffers)
    {
      hide DiskOk, Geometry;
      GeometryFacts();
      if fat32 {
        var i := ReadSector(infoLba);
        assert BufferOk(buffers[i], media, sectors, fatBegin, Info());
        var data := Spliced(buffers[i].data, 492, Bytes32(v));
        nextFree := v;
        InfoWritten(buffers, media, sectors, fatBegin, Info(), i, data);
        Word32Written(buffers[i].data, 492, v);
        media := media[infoLba := data];
        buffers := buffers[i := Buffer(INVALID, false, data)];
      }
    }

    /** What both allocations begin with. */
    method DropHint()
      requires Valid()
      modifies this`media, this`buffers, this`nextFree
      ensures Valid() && DataKept(old(media)) && HintGone(InfoSector(old(media)), old(nextFree))
    {
      GeometryFacts();
      if nextFree != LAST {
        SetNextFree(LAST);
      }
    }

    /** `fatfs_find_blank_cluster`: the first free entry from `from` on. */
    method FindBlank(from: nat) returns (ok: bool, c: nat)
      requires Valid()
      modifies this`media, this`buffers
      ensures Valid() && DataKept(old(media)) && InfoKept(old(media)) && ok == (FirstBlank(Fat(), from) < |Fat()|)
      ensures ok ==> c == FirstBlank(Fat(), from)
    {
      hide Holds, Entry, FirstBlank, Geometry, Table;
      c := from;
      while true
        invariant Valid() && DataKept(old(media)) && InfoKept(old(media)) && FirstBlank(Fat(), c) == FirstBlank(Fat(), from)
        decreases |Fat()| - c
      {
        DivLess(c, fatSectors, PerSector(fat32));
        if c / PerSector(fat32) >= fatSectors {
          NextBlank(Fat(), c);
          return false, c;
        }
        var i := LoadEntry(c);
        NextBlank(Fat(), c);
        if Buffered(i, c) == 0 {
          return true, c;
        }
        c := c + 1;
      }
    }

    // ---------- chains ----------

    /** `fatfs_add_free_space`: appends the first `n` free clusters to the chain that
        ends in `start`, or as many as there are. They lie in the volume exactly if it
        has that many free ones. */
    method AddFreeSpace(start: nat, n: nat) returns (ok: bool, first: nat, ghost more: seq<nat>)
      requires Valid() && start < |Fat()| && Fat()[start] != 0
      modifies this`media, this`buffers, this`sectors, this`nextFree
      ensures Valid() && DataKept(old(media)) && |more| <= n && first == (if more == [] then start else more[0])
      ensures HintGone(InfoSector(old(media)), old(nextFree))
      ensures Nameable(fat32, more) ==> Extended(fat32, old(Fat()), Fat(), rootCluster, start, more)
      ensures ok ==> |more| == n
      ensures !ok ==> |more| < n && forall c :: rootCluster <= c < |Fat()| ==> Fat()[c] != 0
      ensures |Fat()| == |old(Fat())| > 0
      ensures old(Fat())[0] != 0 ==> (Within(more, limit) ==> Nameable(fat32, more)) && (NoSpare(old(Fat()), limit) ==> Within(more, limit))
      ensures old(Fat())[0] != 0 ==> (ok && Within(more, limit) <==> n <= |Blanks(old(Fat()), rootCluster, limit)|)
    {
      hide Holds, Extended, FirstBlank, Table, Geometry, Nameable, Within, NoSpare;
      GeometryFacts();
      DropHint();
      first, more := start, [];
      var tail, i := start, 0;
      ghost var t := Fat();
      NotExtended(fat32, t, rootCluster, start);
      NoneTaken(fat32, t, rootCluster, limit);
      while i < n
        invariant Valid() && DataKept(old(media)) && HintGone(InfoSector(old(media)), old(nextFree)) && 0 <= i == |more| <= n && tail == Tail(start, more) < |t|
        invariant first == (if more == [] then start else more[0])
        invariant t == old(Fat()) && |Fat()| == |t|
        invariant Nameable(fat32, more) ==> Extended(fat32, t, Fat(), rootCluster, start, more)
        invariant t[0] != 0 ==> FewTaken(fat32, t, rootCluster, limit, more) && (NoSpare(t, limit) ==> Within(more, limit))
      {
        var found, c := FindBlank(rootCluster);
        BlankFacts(Fat(), rootCluster);
        if !found {
          AllFound(fat32, t, Fat(), rootCluster, start, limit, more);
          return false, first, more;
        }
        TakenStep(fat32, t, Fat(), rootCluster, start, limit, more, c);
        SetCluster(tail, c);
        SetCluster(c, LAST);
        if i == 0 {
          first := c;
        }
        tail, more, i := c, more + [c], i + 1;
      }
      ok := true;
    }

    /** `fatfs_allocate_free_space` for a new file of at most one cluster. */
    method AllocateFirst() returns (ok: bool, c: nat)
      requires Valid()
      modifies this`media, this`buffers, this`sectors, this`nextFree
      ensures Valid() && DataKept(old(media))
      ensures HintGone(InfoSector(old(media)), old(nextFree))
      ensures ok <==> FirstBlank(old(Fat()), rootCluster) < |old(Fat())|
      ensures ok ==> c == FirstBlank(old(Fat()), rootCluster) && Fat() == old(Fat())[c := Stored(fat32, LAST)]
      ensures !ok ==> Fat() == old(Fat())
    {
      hide Holds, FirstBlank, Table, Geometry;
      DropHint();
      ok, c := FindBlank(rootCluster);
      if ok {
        SetCluster(c, LAST);
      }
    }

    /** `fatfs_free_cluster_chain`, on any table whose links from `start` on stay inside
        it: it ends even on a cyclic chain. */
    method FreeChain(start: nat)
      requires Valid() && Inside(fat32, Fat(), start)
      modifies this`media, this`buffers, this`sectors
      ensures Valid() && DataKept(old(media)) && Fat() == Freed(fat32, old(Fat()), start)
    {
      hide Holds, Table, Geometry;
      GeometryFacts();
      var next: nat := start;
      while next != LAST && next != 0
        invariant Valid() && DataKept(old(media)) && |Fat()| == |old(Fat())|
        invariant Inside(fat32, Fat(), next) && Freed(fat32, Fat(), next) == Freed(fat32, old(Fat()), start)
        decreases UsedCount(Fat()), if next == LAST || next == 0 then 0 else 1
      {
        var last := next;
        ghost var t := Fat();
        next := FindNext(next);
        SetCluster(last, 0);
        if t[last] != 0 {
          UsedCleared(t, last);
        } else {
          assert t[last := 0] == t;
        }
      }
    }

    /** `fatfs_fat_add_cluster_to_chain`: follows the links from `start`, which lead along
        `path` to an end mark or to a free entry, and links `entry` behind the end mark. */
    method AddToChain(start: nat, entry: nat, ghost path: seq<nat>) returns (ok: bool)
      requires Valid() && entry < |Fat()| && IsWalk(fat32, Fat(), path) && start == path[0]
      modifies this`media, this`buffers, this`sectors
      ensures Valid() && DataKept(old(media))
      ensures old(path[|path| - 1] < |Fat()|) && ok == (Next(fat32, old(Fat())[path[|path| - 1]]) == LAST)
      ensures Fat() == if ok then old(Fat())[path[|path| - 1] := Stored(fat32, entry)][entry := Stored(fat32, LAST)] else old(Fat())
    {
      hide Holds, Table, Stored, Geometry;
      GeometryFacts();
      var last: nat, next: nat := LAST, start;
      ghost var i := 0;
      assert WalkAt(fat32, Fat(), path, |path| - 1) && WalkAt(fat32, Fat(), path, 0);
      while next != LAST
        invariant Valid() && DataKept(old(media)) && Fat() == old(Fat()) && 0 <= i <= |path|
        invariant if i == 0 then next == start else last == path[i - 1] && last < |Fat()| && next == Next(fat32, Fat()[last])
        invariant next != LAST ==> i < |path| && next == path[i]
        invariant next == LAST ==> i == |path|
        decreases |path| - i
      {
        last := next;
        assert WalkAt(fat32, Fat(), path, i) && (i + 1 < |path| ==> WalkAt(fat32, Fat(), path, i + 1));
        next := FindNext(next);
        i := i + 1;
        if next == 0 {
          return false;
        }
      }
      SetCluster(last, entry);
      SetCluster(entry, LAST);
      ok := true;
    }

    // ---------- the volume's files ----------

    /** A new file gets the first free cluster as a chain of its own, which is one of the
        volume's exactly if the volume has a free one; if not, no files account for the
        table that results. */
    method StartChain(ghost files: seq<seq<nat>>) returns (ok: bool, c: nat)
      requires Valid() && Wf(fat32, Fat(), limit, files)
      modifies this`media, this`buffers, this`sectors, this`nextFree
      ensures Valid() && DataKept(old(media)) && (ok ==> c < |old(Fat())|)
      ensures Fat() == if ok then old(Fat())[c := Stored(fat32, LAST)] else old(Fat())
      ensures ok && c < limit <==> Blanks(old(Fat()), rootCluster, limit) != {}
      ensures ok && c < limit ==> Wf(fat32, Fat(), limit, files + [[c]])
      ensures ok && c >= limit ==> forall others :: !Wf(fat32, Fat(), limit, others)
      ensures |Blanks(Fat(), rootCluster, limit)| == |Blanks(old(Fat()), rootCluster, limit)| - (if ok && c < limit then 1 else 0)
    {
      hide Holds, FirstBlank, Table, Geometry, Wf, Stored;
      ghost var t := Fat();
      BlankFacts(t, rootCluster);
      GeometryFacts();
      BlankInside(t, rootCluster, limit);
      ok, c := AllocateFirst();
      if ok {
        LastIsUsed(fat32);
        TakenBlank(t, rootCluster, limit, c, Stored(fat32, LAST));
        if c < limit {
          StartedWf(fat32, t, limit, files, c);
        } else {
          OutsideNotWf(fat32, Fat(), limit, c);
        }
      }
    }

    /** A file grows by `n` clusters. They are the volume's exactly if it has that many
        free; then the file's chain is the longer one and no other chain changes. */
    method ExtendChain(last: nat, n: nat, ghost files: seq<seq<nat>>, ghost f: nat) returns (ok: bool, first: nat, ghost more: seq<nat>)
      requires Valid() && Wf(fat32, Fat(), limit, files) && f < |files| && |files[f]| > 0 && last == files[f][|files[f]| - 1]
      modifies this`media, this`buffers, this`sectors, this`nextFree
      ensures Valid() && DataKept(old(media)) && |more| <= n && (ok ==> |more| == n) && (more != [] ==> first == more[0])
      ensures ok && Within(more, limit) <==> n <= |Blanks(old(Fat()), rootCluster, limit)|
      ensures Within(more, limit) <==> Wf(fat32, Fat(), limit, files[f := files[f] + more])
      ensures Within(more, limit) ==> Extended(fat32, old(Fat()), Fat(), rootCluster, last, more)
      ensures Within(more, limit) ==> |Blanks(Fat(), rootCluster, limit)| == |Blanks(old(Fat()), rootCluster, limit)| - |more|
    {
      hide Holds, Table, Geometry, IsChain, Extended, Disjoint, NoneLost, Nameable;
      ghost var t := Fat();
      ChainEnds(fat32, t, limit, files[f]);
      ok, first, more := AddFreeSpace(last, n);
      if Within(more, limit) {
        ExtendedWf(fat32, t, Fat(), limit, rootCluster, files, f, more);
        ExtendedBlanks(fat32, t, Fat(), rootCluster, last, limit, more);
      } else {
        OutsideChain(fat32, Fat(), limit, files, f, more);
      }
    }

    /** A file is deleted: exactly its clusters become free. */
    method ReleaseChain(start: nat, ghost files: seq<seq<nat>>, ghost f: nat)
      requires Valid() && Wf(fat32, Fat(), limit, files) && f < |files| && |files[f]| > 0 && start == files[f][0]
      modifies this`media, this`buffers, this`sectors
      ensures Valid() && DataKept(old(media)) && Wf(fat32, Fat(), limit, Without(files, f))
      ensures Cleared(old(Fat()), Fat(), files[f]) && |Blanks(Fat(), 2, limit)| == |Blanks(old(Fat()), 2, limit)| + |files[f]|
    {
      hide Holds, Table, Geometry, IsChain, AllDisjoint, NoneLost, Freed, Inside;
      ghost var t := Fat();
      GeometryFacts();
      FreedChain(fat32, t, limit, files[f]);
      FreeChain(start);
      FreedWf(fat32, t, Fat(), limit, files, f);
      ClearedBlanks(fat32, t, Fat(), limit, files[f]);
    }

    // ---------- data sectors ----------

    /** `fatfs_sector_read`. */
    method ReadMedia(lba: nat, count: nat) returns (data: seq<Byte>)
      requires Valid() && lba + count <= |media|
      ensures |data| == 512 * count && forall k :: 0 <= k < |data| ==> k % 512 < |media[lba + k / 512]| && data[k] == media[lba + k / 512][k % 512]
      ensures count == 1 ==> data == media[lba]
    {
      hide BuffersOk, DiskOk, Geometry;
      data := [];
      var i := 0;
      while i < count
        invariant 0 <= i <= count && |data| == 512 * i && (i == 1 ==> data == media[lba])
        invariant forall k :: 0 <= k < |data| ==> k % 512 < |media[lba + k / 512]| && data[k] == media[lba + k / 512][k % 512]
      {
        data := data + media[lba + i];
        i := i + 1;
      }
    }

    /** `fatfs_sector_write`, behind the FAT. */
    method WriteMedia(lba: nat, count: nat, data: seq<Byte>)
      requires Valid() && lba + count <= |media| && fatBegin + fatSectors <= lba && |data| == 512 * count
      modifies this`media
      ensures Valid() && |media| == old(|media|)
      ensures forall x :: 0 <= x < |media| && !(lba <= x < lba + count) ==> media[x] == old(media)[x]
      ensures forall i :: 0 <= i < count ==> media[lba + i] == data[512 * i..512 * i + 512]
    {
      hide Holds, Geometry;
      GeometryFacts();
      var i := 0;
      while i < count
        invariant 0 <= i <= count && Valid() && |media| == old(|media|)
        invariant forall x :: 0 <= x < |media| && !(lba <= x < lba + i) ==> media[x] == old(media)[x]
        invariant forall j :: 0 <= j < i ==> media[lba + j] == data[512 * j..512 * j + 512]
      {
        DataWritten(buffers, media, sectors, fatBegin, Info(), lba + i, data[512 * i..512 * i + 512]);
        media := media[lba + i := data[512 * i..512 * i + 512]];
        i := i + 1;
      }
    }
  }
}
