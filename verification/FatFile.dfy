/** An open file of a FAT volume: a cursor, one sector buffer and a remembered place in
    the cluster chain. Reads, writes, flushes and seeks act as on a plain byte
    sequence with a cursor. */
module FatFile {
  import opened Bytes
  import opened FatTable
  import opened FatChains
  import opened FatVolume
  import opened FileView
  import opened FileDisk

  /** The place where the chain search may start: unknown, or a cluster of the chain. */
  ghost predicate HintOk(chain: seq<nat>, idx: nat, cluster: nat) {
    (idx == NONE && cluster == NONE) || (idx < |chain| && cluster == chain[idx])
  }

  lemma RunEnd(s: nat, per: nat, n: nat)
    requires per > 0 && s % per + n <= per
    ensures s % per + n == per ==> (s + n) % per == 0
  {
    if s % per + n == per {
      assert s + n == (s / per + 1) * per + 0;
      QuotientUnique(s + n, per, s / per + 1, 0);
    }
  }

  lemma ShapeFacts(fat32: bool, t: seq<nat>, limit: nat)
    requires Shape(fat32, t, limit)
    ensures 2 <= limit <= |t| && t[0] != 0 && limit < EndMark(fat32)
  {
  }

  lemma ClustersFacts(t: seq<nat>, limit: nat, more: seq<nat>)
    requires Clusters(t, limit, more)
    ensures forall i :: 0 <= i < |more| ==> 2 <= more[i] < limit
  {
  }

  lemma CeilFits(count: nat, per: nat, b: nat)
    requires per > 0 && 1 <= count
    ensures 1 <= (count + per - 1) / per && ((count + per - 1) / per <= b <==> count <= b * per)
  {
    var a := count + per - 1;
    DivLess(a, 1, per);
    DivLess(a, b + 1, per);
    Distribute(b, 1, per);
  }

  lemma AtEnd(offset: nat, per: nat, n: nat)
    requires per > 0
    ensures offset == n * per ==> offset / per == n
  {
    if offset == n * per {
      QuotientUnique(offset, per, n, 0);
    }
  }

  /** The buffer filled from the sector just read. */
  lemma Filled(disk: seq<seq<Byte>>, c: Cache, c': Cache, bytes: seq<Byte>, data: seq<Byte>)
    requires Shows(disk, c, bytes) && !c.dirty && ReadFrom(disk, c'.address, 1, data) && c' == Cache(data, c'.address, false)
    ensures Shows(disk, c', bytes) && c'.address < |disk| && data == disk[c'.address] && |data| == 512 && c'.address != NONE
  {
    assert |disk[c'.address]| == 512;
    forall k | 0 <= k < 512
      ensures data[k] == disk[c'.address][k]
    {
      assert data[k] == disk[c'.address + k / 512][k % 512];
    }
    Refilled(disk, c, c', bytes);
  }

  lemma Refill(disk: seq<seq<Byte>>, c: Cache, c': Cache, bytes: seq<Byte>)
    requires Shows(disk, c, bytes) && !c.dirty && !c'.dirty && |c'.data| == 512 && c'.address == NONE
    ensures Shows(disk, c', bytes)
  {
    Refilled(disk, c, c', bytes);
  }

  lemma ReadyAlready(disk: seq<seq<Byte>>, c: Cache, bytes: seq<Byte>)
    requires Shows(disk, c, bytes) && c.address != NONE
    ensures Ready(disk, c, c.data, c.address)
  {
  }

  /** The old bytes, and what was written of the new ones. */
  ghost predicate Partly(held: seq<Byte>, was: seq<Byte>, at: nat, data: seq<Byte>) {
    && at <= |was| <= |held| < at + |data| && held == Written(was, at, data)[..|held|]
  }

  lemma PartlyWritten(was: seq<Byte>, at: nat, data: seq<Byte>, done: nat)
    requires at <= |was| && done < |data| && |WrittenUpTo(was, at, data, done)| == at + done
    ensures Partly(WrittenUpTo(was, at, data, done), was, at, data)
  {
  }

  /** The bytes once `done` bytes of `data` are written. */
  ghost function WrittenUpTo(was: seq<Byte>, at: nat, data: seq<Byte>, done: nat): (r: seq<Byte>)
    requires at <= |was| && done <= |data|
    ensures at + done <= |r|
  {
    Written(was, at, data[..done])
  }

  lemma WrittenEnds(was: seq<Byte>, at: nat, data: seq<Byte>)
    requires at <= |was|
    ensures WrittenUpTo(was, at, data, 0) == was && WrittenUpTo(was, at, data, |data|) == Written(was, at, data)
  {
    assert data[..|data|] == data;
  }

  /** Bytes written piece by piece. */
  lemma WrittenOn(was: seq<Byte>, at: nat, data: seq<Byte>, done: nat, n: nat)
    requires at <= |was| && done + n <= |data|
    ensures Written(WrittenUpTo(was, at, data, done), at + done, data[done..][..n]) == WrittenUpTo(was, at, data, done + n)
  {
    assert data[..done] + data[done..][..n] == data[..done + n];
    WrittenTwice(was, at, data[..done], data[done..][..n]);
  }

  lemma Appended(bytes: seq<Byte>, start: nat, mid: nat, end: nat)
    requires start <= mid <= end <= |bytes|
    ensures bytes[start..mid] + bytes[mid..end] == bytes[start..end]
  {
  }

  lemma MoreRoom(n: nat, a: nat, b: nat, clusters: nat, per: nat)
    requires RoomIn(a, clusters, per) && RoomIn(b, clusters, per) && (n <= a || n <= b)
    ensures RoomIn(n, clusters, per)
  {
  }

  lemma LastInVolume(fat32: bool, t: seq<nat>, limit: nat, ch: seq<nat>)
    requires IsChain(fat32, t, limit, ch)
    ensures ch[|ch| - 1] < limit
  {
  }

  /** The old entries beyond the volume are in use still. */
  lemma SpareKept(fat32: bool, t: seq<nat>, u: seq<nat>, from: nat, last: nat, more: seq<nat>, limit: nat)
    requires Extended(fat32, t, u, from, last, more) && Within(more, limit) && last < limit && NoSpare(t, limit)
    ensures NoSpare(u, limit)
  {
    forall c | limit <= c < |u|
      ensures u[c] != 0
    {
      assert t[c] != 0;
    }
  }

  lemma NoneLeft(t: seq<nat>, from: nat, limit: nat)
    requires forall c :: from <= c < |t| ==> t[c] != 0
    ensures |Blanks(t, from, limit)| == 0
  {
    assert Blanks(t, from, limit) == {};
  }

  ghost predicate RoomIn(n: nat, clusters: nat, per: nat) {
    n <= 512 * (clusters * per)
  }

  // ---------- the plain file ----------

  datatype Origin = Set | Cur | End | Other
  datatype Mode = Mode(canRead: bool, canWrite: bool, append: bool)
  datatype Op = ReadBytes(count: nat) | WriteBytes(data: seq<Byte>) | FlushFile | SeekTo(offset: int, origin: Origin)
  datatype Answer = Answer(code: int, bytes: seq<Byte>)
  datatype Plain = Plain(content: seq<Byte>, pos: nat)

  function Clamp(x: int, length: nat): nat {
    if x < 0 then 0 else if x > length then length else x
  }

  predicate SeekRefused(offset: int, origin: Origin) {
    origin == Other || (origin == End && offset != 0)
  }

  /** Where a seek leads, in the 32-bit arithmetic of the source. */
  function SeekTarget(offset: int, origin: Origin, pos: nat, length: nat): nat {
    match origin
    case Set => Clamp(offset % 0x1_0000_0000, length)
    case Cur => Clamp(if offset < 0 then pos + offset else (pos + offset) % 0x1_0000_0000, length)
    case End => length
    case Other => pos
  }

  /** In files below two gigabytes nothing wraps: a seek goes where it says, but for a
      negative position from the start, which goes to the end. */
  lemma SeekTargetSmall(offset: int, origin: Origin, pos: nat, length: nat)
    requires pos <= length < 0x8000_0000 && -0x8000_0000 <= offset < 0x8000_0000
    ensures origin == Set ==> SeekTarget(offset, origin, pos, length) == if offset < 0 then length else Clamp(offset, length)
    ensures origin == Cur ==> SeekTarget(offset, origin, pos, length) == Clamp(pos + offset, length)
  {
  }

  /** The 32-bit sums of a seek without remainders. */
  lemma SeekSums(offset: int, pos: nat)
    requires pos < 0x1_0000_0000 && -0x8000_0000 <= offset < 0x8000_0000
    ensures offset % 0x1_0000_0000 == if offset < 0 then offset + 0x1_0000_0000 else offset
    ensures var to := pos + offset; 0 <= to ==> to % 0x1_0000_0000 == if to < 0x1_0000_0000 then to else to - 0x1_0000_0000
  {
  }

  /** What an operation does to a byte sequence with a cursor, and what it answers. */
  function PlainStep(p: Plain, mode: Mode, op: Op): (Plain, Answer)
    requires p.pos <= |p.content|
  {
    match op
    case ReadBytes(count) =>
      if !mode.canRead then (p, Answer(-1, []))
      else if count == 0 then (p, Answer(0, []))
      else if p.pos == |p.content| then (p, Answer(-1, []))
      else
        var end := if p.pos + count > |p.content| then |p.content| else p.pos + count;
        (p.(pos := end), Answer(end - p.pos, p.content[p.pos..end]))
    case WriteBytes(data) =>
      if !mode.canWrite then (p, Answer(-1, []))
      else
        var at := if mode.append then |p.content| else p.pos;
        (Plain(Written(p.content, at, data), at + |data|), Answer(|data|, []))
    case FlushFile => (p, Answer(0, []))
    case SeekTo(offset, origin) =>
      if SeekRefused(offset, origin) then (p, Answer(-1, []))
      else (p.(pos := SeekTarget(offset, origin, p.pos, |p.content|)), Answer(0, []))
  }

  /** After a seek to the end, a write appends and a read finds nothing. */
  lemma AtTheEnd(p: Plain, mode: Mode, data: seq<Byte>, count: nat)
    requires p.pos <= |p.content|
    ensures var q := PlainStep(p, mode, SeekTo(0, End)).0;
      && q.pos == |q.content|
      && (mode.canWrite ==> PlainStep(q, mode, WriteBytes(data)) == (Plain(p.content + data, |p.content| + |data|), Answer(|data|, [])))
      && (mode.canRead && count > 0 ==> PlainStep(q, mode, ReadBytes(count)) == (q, Answer(-1, [])))
  {
    assert Written(p.content, |p.content|, data) == p.content + data;
  }

  /** What is written at a position is read back from there, and no other byte changed. */
  lemma ReadBack(p: Plain, mode: Mode, at: nat, data: seq<Byte>)
    requires p.pos <= |p.content| && at <= |p.content| && at < 0x8000_0000 && data != []
    requires mode.canRead && mode.canWrite && !mode.append
    ensures var written := PlainStep(PlainStep(p, mode, SeekTo(at, Set)).0, mode, WriteBytes(data)).0;
      && written.pos == at + |data| <= |written.content|
      && written.content[..at] == p.content[..at]
      && (at + |data| <= |p.content| ==> written.content[at + |data|..] == p.content[at + |data|..])
      && PlainStep(PlainStep(written, mode, SeekTo(at, Set)).0, mode, ReadBytes(|data|)).1 == Answer(|data|, data)
  {
    var q := PlainStep(p, mode, SeekTo(at, Set)).0;
    assert q == p.(pos := at);
    var written := PlainStep(q, mode, WriteBytes(data)).0;
    assert written == Plain(Written(p.content, at, data), at + |data|);
    assert PlainStep(written, mode, SeekTo(at, Set)).0 == written.(pos := at);
    assert written.content[at..at + |data|] == data;
  }

  /** The sequence after the first `n` operations. */
  function PlainAfter(p: Plain, mode: Mode, ops: seq<Op>, n: nat): (q: Plain)
    requires n <= |ops| && p.pos <= |p.content|
    ensures q.pos <= |q.content|
  {
    if n == 0 then p else PlainStep(PlainAfter(p, mode, ops, n - 1), mode, ops[n - 1]).0
  }

  function PlainAnswer(p: Plain, mode: Mode, ops: seq<Op>, i: nat): Answer
    requires i < |ops| && p.pos <= |p.content|
  {
    PlainStep(PlainAfter(p, mode, ops, i), mode, ops[i]).1
  }

  /** Positions stay in 32 bits and writes below `bound`. */
  predicate OpFits(p: Plain, mode: Mode, op: Op, bound: nat) {
    match op
    case ReadBytes(count) => p.pos + count < 0x1_0000_0000
    case WriteBytes(data) => (if mode.append then |p.content| else p.pos) + |data| <= bound
    case FlushFile => true
    case SeekTo(offset, origin) => -0x8000_0000 <= offset < 0x8000_0000
  }

  ghost predicate Fitting(p: Plain, mode: Mode, ops: seq<Op>, bound: nat)
    requires p.pos <= |p.content|
  {
    forall i :: 0 <= i < |ops| ==> OpFits(PlainAfter(p, mode, ops, i), mode, ops[i], bound)
  }

  lemma FitsAt(p: Plain, mode: Mode, ops: seq<Op>, bound: nat, i: nat)
    requires p.pos <= |p.content| && Fitting(p, mode, ops, bound) && i < |ops|
    ensures OpFits(PlainAfter(p, mode, ops, i), mode, ops[i], bound)
    ensures PlainAfter(p, mode, ops, i + 1) == PlainStep(PlainAfter(p, mode, ops, i), mode, ops[i]).0
    ensures PlainAnswer(p, mode, ops, i) == PlainStep(PlainAfter(p, mode, ops, i), mode, ops[i]).1
  {
  }

  class File {
    const fs: Volume
    const startCluster: nat
    const canRead: bool
    const canWrite: bool
    const append: bool
    var bytenum: nat
    var fileLength: nat
    var lengthChanged: bool
    var hintIdx: nat
    var hintCluster: nat
    var cache: Cache
    ghost var chain: seq<nat>
    ghost var content: seq<Byte>
    ghost var mark: State     // a state since which only the file's own clusters changed

    /** The chain is in the FAT, and the hint is on it. */
    ghost predicate OnChain()
      reads this, fs
    {
      && fs.Valid() && IsChain(fs.fat32, fs.Fat(), fs.limit, chain) && chain[0] == startCluster
      && Shape(fs.fat32, fs.Fat(), fs.limit) && HintOk(chain, hintIdx, hintCluster)
    }

    ghost function Now(): State
      reads this, fs
      requires fs.Valid()
    {
      State(fs.Fat(), fs.media, chain)
    }

    /** What is not the file's is as it was in state `a`. */
    ghost predicate OthersKept(a: State)
      reads this, fs
      requires fs.Valid()
    {
      Apart(fs.Lba(2), fs.perCluster, fs.limit, a, Now())
    }

    ghost predicate Linked()
      reads this, fs
    {
      OnChain() && OthersKept(mark)
    }

    lemma Places()
      requires OnChain()
      ensures fs.Lba(2) >= 0 && Fits(fs.media, fs.Lba(2), fs.perCluster, fs.limit, chain)
      ensures |chain| * fs.perCluster < NONE && |chain| < NONE
    {
      ChainFits(fs, chain);
    }

    /** The file's sectors on the disk. */
    ghost function DiskNow(): seq<seq<Byte>>
      reads this, fs
    {
      if fs.Lba(2) < 0 then [] else Disk(fs.media, fs.Lba(2), fs.perCluster, chain)
    }

    /** The free clusters of the volume. */
    ghost function Left(): nat
      reads this, fs
      requires fs.Valid()
    {
      |Blanks(fs.Fat(), fs.rootCluster, fs.limit)|
    }

    /** No FAT entry outside the volume is free. */
    ghost predicate Enclosed()
      reads this, fs
      requires fs.Valid()
    {
      NoSpare(fs.Fat(), fs.limit)
    }

    /** The clusters that the file has or could get. */
    ghost function Capacity(): nat
      reads this, fs
      requires fs.Valid()
    {
      |chain| + Left()
    }

    ghost predicate Room(n: nat)
      reads this, fs
      requires fs.Valid()
    {
      RoomIn(n, Capacity(), fs.perCluster)
    }

    /** The disk and the buffer show `bytes`; unflushed data lies behind the cursor's
        sector start, and there is room to flush it. */
    ghost predicate Holding(bytes: seq<Byte>)
      reads this, fs
    {
      && Linked() && Shows(DiskNow(), cache, bytes) && (cache.dirty ==> 512 * cache.address < bytenum)
      && bytenum <= |bytes| < 0x1_0000_0000 && Room(|bytes|)
    }

    ghost predicate Valid()
      reads this, fs
    {
      Holding(content) && fileLength == |content|
    }

    /** The disk alone shows `bytes`. */
    ghost predicate Saved(bytes: seq<Byte>)
      reads this, fs
    {
      Shows(DiskNow(), Cache(ZeroSector(), NONE, false), bytes)
    }

    /** The volume is full: unflushed data, if any, belongs behind the chain's end and
        cannot be written there. */
    ghost predicate Stuck(bytes: seq<Byte>)
      reads this, fs
    {
      && Linked() && Saved(bytes) && |bytes| < 0x1_0000_0000 && |cache.data| == 512
      && fs.perCluster >= 2 && Left() == 0 && Enclosed()
      && (cache.dirty ==> cache.address != NONE && cache.address / fs.perCluster == |chain|)
    }

    /** How the file stands while it is written. */
    ghost predicate Stands(stuck: bool, bytes: seq<Byte>)
      reads this, fs
    {
      if stuck then Stuck(bytes) else Holding(bytes)
    }

    /** From here on `OthersKept(mark)` speaks of the present state. */
    ghost method Remember()
      requires Linked()
      modifies this`mark
      ensures Linked() && mark == Now()
    {
      ApartSelf(fs.Lba(2), fs.perCluster, fs.limit, Now());
      mark := Now();
    }

    /** A file just opened: nothing buffered, nothing remembered. */
    constructor (fs: Volume, start: nat, length: nat, canRead: bool, canWrite: bool, append: bool, ghost ch: seq<nat>)
      requires fs.Valid() && IsChain(fs.fat32, fs.Fat(), fs.limit, ch) && ch[0] == start && Shape(fs.fat32, fs.Fat(), fs.limit)
      requires length < 0x1_0000_0000 && length <= 512 * (|ch| * fs.perCluster)
      ensures Valid() && this.fs == fs && bytenum == 0 && fileLength == length && chain == ch && !cache.dirty && mark == Now()
    {
      this.fs, startCluster := fs, start;
      this.canRead, this.canWrite, this.append := canRead, canWrite, append;
      bytenum, fileLength, lengthChanged := 0, length, false;
      hintIdx, hintCluster := NONE, NONE;
      cache := Cache(seq(512, i => 0), NONE, false);
      chain, mark := ch, State(fs.Fat(), fs.media, ch);
      new;
      ApartSelf(fs.Lba(2), fs.perCluster, fs.limit, mark);
      Places();
      ghost var disk := DiskNow();
      DiskWhole(fs.media, fs.Lba(2), fs.perCluster, fs.limit, chain);
      content := seq(length, k requires 0 <= k < length => disk[k / 512][k % 512]);
      MulMono(|chain|, Capacity(), fs.perCluster);
      assert forall k :: 0 <= k < |content| ==> ByteShown(disk, cache, content, k);
    }

    /** Looks up the `idx`th cluster of the chain, from the hint if that is the cluster
        or the one before it, else from the start. */
    method Walk(idx: nat) returns (cluster: nat, last: nat)
      requires OnChain() && idx <= |chain|
      modifies fs`media, fs`buffers
      ensures OnChain() && fs.DataKept(old(fs.media)) && fs.Fat() == old(fs.Fat())
      ensures if idx < |chain| then cluster == chain[idx] && cluster != LAST else cluster == LAST
      ensures idx == |chain| ==> last == chain[|chain| - 1]
    {
      hide FatBuffers.Holds, Table, IsChain, Volume.Geometry, Fits, Next, Shape, Apart, NoSpare;
      Places();
      fs.GeometryFacts();
      if idx < |chain| {
        NextOnChain(fs.fat32, fs.Fat(), fs.limit, chain, idx);
      }
      last := LAST;
      if idx == hintIdx {
        cluster := hintCluster;
        return;
      }
      var i := 0;
      cluster := startCluster;
      if idx != 0 && idx == (hintIdx + 1) % 0x1_0000_0000 {
        i, cluster := hintIdx, hintCluster;
      }
      ChainEnds(fs.fat32, fs.Fat(), fs.limit, chain);
      cluster, last := Follow(i, cluster, idx);
    }

    method Follow(from: nat, first: nat, idx: nat) returns (cluster: nat, last: nat)
      requires OnChain() && from <= idx <= |chain| && from < |chain| && first == chain[from]
      modifies fs`media, fs`buffers
      ensures OnChain() && fs.DataKept(old(fs.media)) && fs.Fat() == old(fs.Fat())
      ensures cluster == if idx < |chain| then chain[idx] else LAST
      ensures idx == |chain| ==> last == chain[|chain| - 1]
    {
      hide FatBuffers.Holds, Table, IsChain, Volume.Geometry, Next, Shape, HintOk, Apart, NoSpare;
      fs.GeometryFacts();
      last, cluster := LAST, first;
      var i := from;
      while i < idx
        invariant OnChain() && fs.DataKept(old(fs.media)) && fs.Fat() == old(fs.Fat()) && from <= i <= idx
        invariant cluster == if i < |chain| then chain[i] else LAST
        invariant i == |chain| ==> last == chain[|chain| - 1]
      {
        NextOnChain(fs.fat32, fs.Fat(), fs.limit, chain, i);
        var next := fs.FindNext(cluster);
        last, cluster := cluster, next;
        i := i + 1;
      }
    }

    /** The FAT after clusters of the volume were appended. */
    lemma GrownChain(t: seq<nat>, u: seq<nat>, ch: seq<nat>, more: seq<nat>)
      requires IsChain(fs.fat32, t, fs.limit, ch) && Shape(fs.fat32, t, fs.limit)
      requires Extended(fs.fat32, t, u, fs.rootCluster, ch[|ch| - 1], more) && Within(more, fs.limit)
      ensures IsChain(fs.fat32, u, fs.limit, ch + more) && Shape(fs.fat32, u, fs.limit)
      ensures |Blanks(u, fs.rootCluster, fs.limit)| == |Blanks(t, fs.rootCluster, fs.limit)| - |more|
      ensures NoSpare(t, fs.limit) ==> NoSpare(u, fs.limit)
      ensures NoRepeats(more) && forall i :: 0 <= i < |more| ==> 2 <= more[i] < fs.limit
    {
      hide IsChain, Shape, Clusters, Extended, Blanks, NoSpare;
      ChainEnds(fs.fat32, t, fs.limit, ch);
      var from, last := fs.rootCluster, ch[|ch| - 1];
      ExtensionFacts(fs.fat32, t, u, from, last, more);
      EntriesKept(fs.fat32, t, u, fs.limit, from, last, more);
      ShapeFacts(fs.fat32, t, fs.limit);
      ExtendedChain(fs.fat32, t, u, fs.limit, from, ch, more);
      ExtendedBlanks(fs.fat32, t, u, from, last, fs.limit, more);
      ClustersFacts(t, fs.limit, more);
      if NoSpare(t, fs.limit) {
        LastInVolume(fs.fat32, t, fs.limit, ch);
        SpareKept(fs.fat32, t, u, from, last, more, fs.limit);
      }
    }

    /** The part that `_read_sectors` and `_write_sectors` share: the cluster of a sector,
        how far a run from that sector goes in it, and where it is on the disk. */
    method Locate(offset: nat, count: nat) returns (cluster: nat, last: nat, idx: nat, n: nat)
      requires Linked() && count >= 1 && fs.perCluster > 0 && offset / fs.perCluster <= |chain|
      modifies fs`media, fs`buffers
      ensures Linked() && fs.Fat() == old(fs.Fat()) && DiskNow() == old(DiskNow())
      ensures idx == offset / fs.perCluster && 1 <= n <= count && offset % fs.perCluster + n <= fs.perCluster
      ensures n == count || (offset + n) % fs.perCluster == 0
      ensures if idx < |chain| then cluster == chain[idx] && cluster != LAST else cluster == LAST && last == chain[|chain| - 1]
    {
      hide FatBuffers.Holds, Table, IsChain, Volume.Geometry, Fits, Shape, Disk, Volume.Lba, Place, HintOk, Apart, NoSpare;
      Places();
      var per := fs.perCluster;
      idx := offset / per;
      var sector := offset - idx * per;
      Rebuilt(offset, per);
      n := if sector + count > per then per - sector else count;
      RunEnd(offset, per, n);
      cluster, last := Walk(idx);
      SameDisk(fs, old(fs.media), chain);
      ApartMeta(fs, old(fs.media), mark, chain);
    }

    /** `_read_sectors`: up to `count` sectors from the file's sector `offset` on, as far
        as its cluster goes; none behind the chain. */
    method ReadSectors(offset: nat, count: nat) returns (n: nat, data: seq<Byte>)
      requires Linked() && count >= 1 && fs.perCluster > 0 && offset / fs.perCluster <= |chain|
      modifies fs`media, fs`buffers, this`hintIdx, this`hintCluster
      ensures Linked() && fs.Fat() == old(fs.Fat()) && DiskNow() == old(DiskNow())
      ensures offset / fs.perCluster == |chain| ==> n == 0
      ensures offset / fs.perCluster < |chain| ==> 1 <= n <= count && ReadFrom(DiskNow(), offset, n, data)
      ensures offset / fs.perCluster < |chain| ==> n == count || (offset + n) % fs.perCluster == 0
    {
      hide FatBuffers.Holds, Table, IsChain, Volume.Geometry, Fits, Shape, Disk, Volume.Lba, Place, Apart, NoSpare;
      var cluster, last, idx;
      cluster, last, idx, n := Locate(offset, count);
      if cluster == LAST {
        return 0, [];
      }
      hintIdx, hintCluster := idx, cluster;
      Places();
      LbaIsPlace(fs, chain, offset);
      RunInside(fs.media, fs.Lba(2), fs.perCluster, fs.limit, chain, offset, n);
      data := fs.ReadMedia(fs.Lba(cluster) + (offset - idx * fs.perCluster), n);
      DiskRead(fs.media, fs.Lba(2), fs.perCluster, fs.limit, chain, offset, n, data);
    }

    /** Appends `need` clusters behind the last one, or all that the volume has. */
    method Grow(last: nat, need: nat) returns (ok: bool, first: nat, ghost extra: seq<seq<Byte>>)
      requires Linked() && last == chain[|chain| - 1] && 1 <= need && (need <= Left() || Enclosed())
      modifies fs`media, fs`buffers, fs`sectors, fs`nextFree, this`chain
      ensures Linked() && (ok <==> need <= old(Left())) && (old(Enclosed()) ==> Enclosed())
      ensures |chain| == old(|chain|) + (if ok then need else old(Left())) && chain[..old(|chain|)] == old(chain)
      ensures Capacity() == old(Capacity()) && DiskNow() == old(DiskNow()) + extra && Whole(extra)
      ensures ok ==> first == chain[old(|chain|)]
    {
      hide FatBuffers.Holds, Table, IsChain, Volume.Geometry, Fits, Shape, Disk, Volume.Lba, Place, Extended, Blanks, Clusters,
        Apart, NoSpare, Nameable;
      ghost var t, ch := fs.Fat(), chain;
      Places();
      ChainEnds(fs.fat32, t, fs.limit, ch);
      ShapeFacts(fs.fat32, t, fs.limit);
      ghost var more;
      ok, first, more := fs.AddFreeSpace(last, need);
      GrownChain(t, fs.Fat(), ch, more);
      if !ok {
        NoneLeft(fs.Fat(), fs.rootCluster, fs.limit);
      }
      chain := ch + more;
      Places();
      extra := GrownDisk(fs, old(fs.media), ch, more);
      ApartGrow(fs, old(fs.media), mark, t, ch, more);
    }

    /** `_write_sectors`: up to `count` sectors from the file's sector `offset` on, as far
        as its cluster goes. At the end of the chain it first grows, by as many clusters
        as all `count` sectors need; nothing is written if the volume has fewer. */
    method WriteSectors(offset: nat, bytes: seq<Byte>, count: nat) returns (n: nat, ghost extra: seq<seq<Byte>>)
      requires Linked() && count >= 1 && |bytes| == 512 * count && fs.perCluster > 0 && offset / fs.perCluster <= |chain|
      requires offset / fs.perCluster == |chain| ==> (count <= Left() * fs.perCluster || Enclosed()) && (offset == |chain| * fs.perCluster || Left() == 0)
      modifies fs`media, fs`buffers, fs`sectors, fs`nextFree, this`chain, this`hintIdx, this`hintCluster
      ensures Linked() && Capacity() == old(Capacity()) && n <= count && Whole(extra) && (old(Enclosed()) ==> Enclosed())
      ensures n == 0 <==> old(offset / fs.perCluster == |chain| && count > Left() * fs.perCluster)
      ensures n > 0 ==> Replaced(old(DiskNow()) + extra, DiskNow(), offset, n, bytes[..512 * n])
      ensures n == 0 ==> Left() == 0 && DiskNow() == old(DiskNow()) + extra && |chain| == old(|chain| + Left())
    {
      hide FatBuffers.Holds, Table, IsChain, Volume.Geometry, Fits, Shape, Disk, Volume.Lba, Place, Blanks, Replaced, Apart, NoSpare;
      AtEnd(offset, fs.perCluster, |chain|);
      var cluster, last, idx;
      cluster, last, idx, n := Locate(offset, count);
      extra := [];
      if cluster == LAST {
        var ok;
        CeilFits(count, fs.perCluster, Left());
        ok, cluster, extra := Grow(last, (count + fs.perCluster - 1) / fs.perCluster);
        if !ok {
          return 0, extra;
        }
        NoClusters(fs.perCluster);
      }
      hintIdx, hintCluster := idx, cluster;
      assert old(DiskNow()) + [] == old(DiskNow());
      Put(offset, idx, cluster, n, bytes[..512 * n]);
    }

    lemma NoClusters(per: nat)
      ensures 0 * per == 0
    {
    }

    /** The write itself: sectors of one cluster. */
    method Put(offset: nat, idx: nat, cluster: nat, n: nat, bytes: seq<Byte>)
      requires Linked() && fs.perCluster > 0 && idx == offset / fs.perCluster < |chain| && cluster == chain[idx]
      requires 1 <= n && offset % fs.perCluster + n <= fs.perCluster && |bytes| == 512 * n
      modifies fs`media
      ensures Linked() && Capacity() == old(Capacity()) && fs.Fat() == old(fs.Fat())
      ensures Replaced(old(DiskNow()), DiskNow(), offset, n, bytes)
    {
      hide FatBuffers.Holds, Table, IsChain, Volume.Geometry, Shape, Disk, Volume.Lba, Place, Blanks, Replaced, Apart, NoSpare;
      Places();
      LbaIsPlace(fs, chain, offset);
      RunInside(fs.media, fs.Lba(2), fs.perCluster, fs.limit, chain, offset, n);
      fs.GeometryFacts();
      ghost var was := Now();
      fs.WriteMedia(fs.Lba(cluster) + (offset - idx * fs.perCluster), n, bytes);
      Places();
      DiskWritten(was.media, fs.media, fs.Lba(2), fs.perCluster, fs.limit, chain, offset, n, bytes);
      ApartWritten(fs.Lba(2), fs.perCluster, fs.limit, was, fs.media, offset, n);
      ApartTrans(fs.Lba(2), fs.perCluster, fs.limit, mark, was, Now());
    }

    // ---------- the buffer ----------

    /** The sectors from the chain's end to `offset + count` fit, if the bytes do that reach
        into the last; and bytes that reach no further fit if the sectors do. */
    lemma RoomFor(offset: nat, count: nat, n: nat)
      requires fs.Valid() && fs.perCluster > 0 && offset == |chain| * fs.perCluster
      ensures Room(n) && count >= 1 && 512 * (offset + count - 1) < n ==> count <= Left() * fs.perCluster
      ensures count <= Left() * fs.perCluster && n <= 512 * (offset + count) ==> Room(n)
    {
      hide FatBuffers.Holds, Volume.Geometry, Blanks, Table, Apart, NoSpare;
      Distribute(|chain|, Left(), fs.perCluster);
    }

    /** What the disk holds has room. */
    lemma RoomOnDisk(n: nat)
      requires Linked() && fs.perCluster > 0 && n <= 512 * |DiskNow()|
      ensures Room(n)
    {
      hide FatBuffers.Holds, Volume.Geometry, IsChain, Shape, Volume.Lba, Place, Apart, Blanks, Table, NoSpare;
      Places();
      MulMono(|chain|, Capacity(), fs.perCluster);
    }

    /** Where a sector stands that is at most one behind the chain's last. */
    lemma SectorIndex(sector: nat)
      requires Linked() && fs.perCluster > 0 && sector <= |DiskNow()|
      ensures |DiskNow()| == |chain| * fs.perCluster
      ensures sector < |DiskNow()| ==> sector / fs.perCluster < |chain|
      ensures sector == |DiskNow()| ==> sector / fs.perCluster == |chain|
    {
      hide FatBuffers.Holds, Volume.Geometry, IsChain, Shape, Volume.Lba, Place, Apart, NoSpare;
      Places();
      DivLess(sector, |chain|, fs.perCluster);
      AtEnd(sector, fs.perCluster, |chain|);
    }

    /** Writes a dirty buffer back, if that can be done. */
    method FlushBuffer(ghost bytes: seq<Byte>, ghost stuck: bool)
      requires Stands(stuck, bytes)
      modifies fs`media, fs`buffers, fs`sectors, fs`nextFree, this`chain, this`hintIdx, this`hintCluster, this`cache
      ensures Stands(stuck, bytes) && Capacity() == old(Capacity()) && (old(Enclosed()) ==> Enclosed())
      ensures cache == if stuck then old(cache) else old(cache).(dirty := false)
      ensures stuck ==> |chain| == old(|chain|)
    {
      hide FatBuffers.Holds, Table, IsChain, Volume.Geometry, Shape, Disk, Volume.Lba, Blanks, Replaced, RoomIn, HintOk, Shows,
        Whole, Apart, NoSpare;
      if cache.dirty {
        ghost var disk := DiskNow();
        fs.GeometryFacts();
        if !stuck {
          CacheFacts(disk, cache, bytes);
          SectorIndex(cache.address);
          if cache.address == |disk| {
            RoomFor(cache.address, 1, |bytes|);
          }
        } else {
          NoClusters(fs.perCluster);
        }
        var n;
        ghost var extra;
        n, extra := WriteSectors(cache.address, cache.data, 1);
        Places();
        if n > 0 {
          FlushedBy(disk, extra, DiskNow(), cache, bytes);
          cache := cache.(dirty := false);
        } else {
          StillSaved(disk, extra, bytes);
        }
      }
    }

    lemma StillSaved(disk: seq<seq<Byte>>, extra: seq<seq<Byte>>, bytes: seq<Byte>)
      requires Shows(disk, Cache(ZeroSector(), NONE, false), bytes) && Whole(extra) && DiskNow() == disk + extra && |DiskNow()| < NONE
      ensures Saved(bytes)
    {
      Grown(disk, extra, Cache(ZeroSector(), NONE, false), bytes);
    }

    // ---------- reading ----------

    /** Whole sectors, straight from the disk. */
    method ReadDirect(sector: nat, want: nat, ghost bytes: seq<Byte>) returns (n: nat, piece: seq<Byte>)
      requires Holding(bytes) && want >= 1 && 512 * sector == bytenum && bytenum + 512 * want <= |bytes|
      modifies fs`media, fs`buffers, this`hintIdx, this`hintCluster, this`bytenum
      ensures Holding(bytes) && bytenum == old(bytenum) + 512 * n && Capacity() == old(Capacity())
      ensures 1 <= n <= want && piece == bytes[old(bytenum)..bytenum]
    {
      hide FatBuffers.Holds, Table, IsChain, Volume.Geometry, Shape, Disk, Volume.Lba, Blanks, RoomIn, HintOk, Shows, Whole,
        ReadFrom, Apart, NoSpare;
      fs.GeometryFacts();
      InsideDisk(DiskNow(), cache, bytes, sector);
      SectorIndex(sector);
      n, piece := ReadSectors(sector, want);
      DirectlyRead(DiskNow(), cache, bytes, sector, n, piece);
      bytenum := bytenum + 512 * n;
    }

    /** The buffer holds a sector of the file. */
    method LoadSector(sector: nat, ghost bytes: seq<Byte>)
      requires Holding(bytes) && 512 * sector < |bytes|
      modifies fs`media, fs`buffers, fs`sectors, fs`nextFree, this`chain, this`hintIdx, this`hintCluster, this`cache
      ensures Holding(bytes) && cache.address == sector != NONE && Capacity() == old(Capacity())
    {
      hide FatBuffers.Holds, Table, IsChain, Volume.Geometry, Shape, Disk, Volume.Lba, Blanks, RoomIn, HintOk, Shows, Whole,
        ReadFrom, Apart, NoSpare;
      NotNone(sector, bytes);
      if cache.address != sector {
        CacheFacts(DiskNow(), cache, bytes);
        if cache.dirty {
          FlushBuffer(bytes, false);
        }
        fs.GeometryFacts();
        InsideDisk(DiskNow(), cache, bytes, sector);
        SectorIndex(sector);
        var n, data := ReadSectors(sector, 1);
        Filled(DiskNow(), cache, Cache(data, sector, false), bytes, data);
        cache := Cache(data, sector, false);
      }
    }

    /** Part of one sector, through the buffer. */
    method ReadBuffered(sector: nat, off: nat, want: nat, ghost bytes: seq<Byte>) returns (piece: seq<Byte>)
      requires Holding(bytes) && off < 512 && want >= 1 && 512 * sector + off == bytenum && bytenum + want <= |bytes|
      modifies fs`media, fs`buffers, fs`sectors, fs`nextFree, this`chain, this`hintIdx, this`hintCluster, this`cache, this`bytenum
      ensures Holding(bytes) && bytenum == old(bytenum) + |piece| && Capacity() == old(Capacity())
      ensures |piece| == (if 512 - off > want then want else 512 - off) && piece == bytes[old(bytenum)..bytenum]
    {
      hide FatBuffers.Holds, Table, IsChain, Volume.Geometry, Shape, Disk, Volume.Lba, Blanks, RoomIn, HintOk, Shows, Whole,
        ReadFrom, Apart, NoSpare;
      LoadSector(sector, bytes);
      var copyCount := if 512 - off > want then want else 512 - off;
      CopiedOut(DiskNow(), cache, bytes, off, copyCount);
      piece := cache.data[off..off + copyCount];
      bytenum := bytenum + copyCount;
    }

    // ---------- writing ----------

    /** Writes a dirty buffer back, if that can be done, and forgets it. */
    method DropBuffer(ghost bytes: seq<Byte>, ghost stuck: bool)
      requires Stands(stuck, bytes)
      modifies fs`media, fs`buffers, fs`sectors, fs`nextFree, this`chain, this`hintIdx, this`hintCluster, this`cache
      ensures Stands(stuck, bytes) && cache.address == NONE && !cache.dirty && Capacity() == old(Capacity()) && (old(Enclosed()) ==> Enclosed())
      ensures stuck ==> |chain| == old(|chain|)
    {
      hide FatBuffers.Holds, Table, IsChain, Volume.Geometry, Shape, Disk, Volume.Lba, Blanks, RoomIn, HintOk, Shows, Apart, NoSpare;
      if !stuck {
        CacheFacts(DiskNow(), cache, bytes);
      }
      if cache.address != NONE {
        if cache.dirty {
          FlushBuffer(bytes, stuck);
        }
        if !stuck {
          CacheFacts(DiskNow(), cache, bytes);
          Refill(DiskNow(), cache, Cache(cache.data, NONE, false), bytes);
        }
        cache := Cache(cache.data, NONE, false);
      }
    }

    /** Whole sectors, straight to the disk; a buffered sector is written back first. None
        are written if the volume has not enough clusters for all of them. */
    method WriteDirect(sector: nat, data: seq<Byte>, ghost bytes: seq<Byte>, ghost stuck: bool) returns (n: nat)
      requires |data| >= 512 && 512 * sector == bytenum && bytenum + |data| < 0x1_0000_0000 && (stuck || bytenum <= |bytes|)
      requires fs.Valid() && fs.perCluster > 0 && Stands(stuck, bytes)
      requires if stuck then sector / fs.perCluster == |chain| else Room(bytenum + |data|) || (Enclosed() && fs.perCluster >= 2)
      modifies fs`media, fs`buffers, fs`sectors, fs`nextFree, this`chain, this`hintIdx, this`hintCluster, this`cache, this`bytenum
      ensures 512 * n <= |data| && bytenum == old(bytenum) + 512 * n && fs.Valid()
      ensures Capacity() == old(Capacity()) && (old(Enclosed()) ==> Enclosed())
      ensures n > 0 ==> !stuck && Stands(false, Written(bytes, old(bytenum), data[..512 * n]))
      ensures n == 0 ==> Stands(true, bytes)
      ensures n == 0 && !stuck ==> !Room(bytenum + |data|) && |bytes| == bytenum
    {
      hide FatBuffers.Holds, Table, IsChain, Volume.Geometry, Shape, Disk, Volume.Lba, Blanks, RoomIn, HintOk, Shows, Whole,
        Replaced, Apart, NoSpare;
      DropBuffer(bytes, stuck);
      ghost var disk := DiskNow();
      var count := |data| / 512;
      if !stuck {
        BeforeDirect(sector, |data|, bytes);
      } else {
        NoClusters(fs.perCluster);
      }
      ghost var extra;
      n, extra := WriteSectors(sector, data[..512 * count], count);
      Places();
      if n == 0 {
        StillSaved(disk, extra, bytes);
        return;
      }
      assert data[..512 * count][..512 * n] == data[..512 * n];
      bytenum := bytenum + 512 * n;
      AfterDirect(disk, extra, bytes, sector, n, data[..512 * n]);
    }

    /** A direct write starts on the chain or right behind it. */
    lemma BeforeDirect(sector: nat, length: nat, bytes: seq<Byte>)
      requires Holding(bytes) && cache.address == NONE && !cache.dirty && 512 * sector == bytenum && length >= 512 && fs.perCluster > 0
      ensures Saved(bytes) && |cache.data| == 512 && sector / fs.perCluster <= |chain|
      ensures sector / fs.perCluster == |chain| ==> sector == |chain| * fs.perCluster && |bytes| == bytenum
      ensures sector / fs.perCluster == |chain| && Room(bytenum + length) ==> length / 512 <= Left() * fs.perCluster
    {
      hide FatBuffers.Holds, Table, IsChain, Volume.Geometry, Shape, Disk, Volume.Lba, Blanks, RoomIn, HintOk, Shows, Whole, Apart, NoSpare;
      CacheFacts(DiskNow(), cache, bytes);
      Reach(DiskNow(), cache, bytes);
      SectorIndex(sector);
      if sector == |DiskNow()| {
        RoomFor(sector, length / 512, bytenum + length);
      }
      Refill(DiskNow(), cache, Cache(ZeroSector(), NONE, false), bytes);
    }

    lemma AfterDirect(disk: seq<seq<Byte>>, extra: seq<seq<Byte>>, bytes: seq<Byte>, sector: nat, n: nat, piece: seq<Byte>)
      requires Linked() && fs.perCluster > 0 && cache.address == NONE && !cache.dirty && Shows(disk, cache, bytes) && Whole(extra)
      requires 512 * sector <= |bytes| < 0x1_0000_0000 && |DiskNow()| < NONE && Replaced(disk + extra, DiskNow(), sector, n, piece)
      requires bytenum == 512 * sector + 512 * n < 0x1_0000_0000 && |piece| == 512 * n
      ensures Holding(Written(bytes, 512 * sector, piece))
    {
      hide FatBuffers.Holds, Table, IsChain, Volume.Geometry, Shape, Disk, Volume.Lba, Blanks, RoomIn, HintOk, Shows, Whole,
        Replaced, Apart, NoSpare;
      DirectlyWrittenBy(disk, extra, DiskNow(), cache, bytes, sector, n, piece);
      Reach(DiskNow(), cache, Written(bytes, 512 * sector, piece));
      RoomOnDisk(|Written(bytes, 512 * sector, piece)|);
    }

    /** Makes the buffer ready for a store into `sector`: written back, then filled from
        the disk, or with zeros if the file has no such sector yet. */
    method Prepare(sector: nat, ghost bytes: seq<Byte>, ghost stuck: bool) returns (data: seq<Byte>)
      requires Stands(stuck, bytes)
      requires if stuck then fs.perCluster > 0 && sector / fs.perCluster == |chain| else 512 * sector <= |bytes|
      modifies fs`media, fs`buffers, fs`sectors, fs`nextFree, this`chain, this`hintIdx, this`hintCluster, this`cache
      ensures Stands(stuck, bytes) && |data| == 512 && Capacity() == old(Capacity()) && (old(Enclosed()) ==> Enclosed())
      ensures if stuck then |chain| == old(|chain|) else Ready(DiskNow(), cache, data, sector)
    {
      hide FatBuffers.Holds, Table, IsChain, Volume.Geometry, Shape, Disk, Volume.Lba, Blanks, RoomIn, HintOk, Shows, Whole,
        ReadFrom, Apart, NoSpare;
      if !stuck {
        CacheFacts(DiskNow(), cache, bytes);
      }
      if cache.address == sector {
        data := cache.data;
        if !stuck {
          NotNone(sector, bytes);
          ReadyAlready(DiskNow(), cache, bytes);
        }
        return;
      }
      if cache.dirty {
        FlushBuffer(bytes, stuck);
      }
      fs.GeometryFacts();
      if !stuck {
        Reach(DiskNow(), cache, bytes);
        SectorIndex(sector);
      }
      var n;
      n, data := ReadSectors(sector, 1);
      if n == 0 {
        data := seq(512, i => 0);
      } else {
        Filled(DiskNow(), cache, Cache(data, sector, false), bytes, data);
      }
    }

    lemma NotNone(sector: nat, bytes: seq<Byte>)
      requires 512 * sector <= |bytes| < 0x1_0000_0000
      ensures sector != NONE
    {
    }

    /** Part of one sector, into the buffer. `stops` tells that the sector is behind a
        chain that cannot grow. */
    method WriteBuffered(sector: nat, off: nat, data: seq<Byte>, ghost bytes: seq<Byte>, ghost stuck: bool) returns (ghost stops: bool)
      requires 1 <= |data| && off + |data| <= 512 && 512 * sector + off == bytenum && bytenum + |data| < 0x1_0000_0000
      requires (stuck || bytenum <= |bytes|) && fs.Valid() && fs.perCluster > 0 && Stands(stuck, bytes)
      requires if stuck then sector / fs.perCluster == |chain| else Room(bytenum + |data|) || (Enclosed() && fs.perCluster >= 2)
      modifies fs`media, fs`buffers, fs`sectors, fs`nextFree, this`chain, this`hintIdx, this`hintCluster, this`cache, this`bytenum
      ensures bytenum == old(bytenum) + |data| && (stuck ==> stops) && fs.Valid()
      ensures Capacity() == old(Capacity()) && (old(Enclosed()) ==> Enclosed())
      ensures Stands(stops, if stops then bytes else Written(bytes, old(bytenum), data))
      ensures stops && !stuck ==> !Room(bytenum) && |bytes| == old(bytenum) && (sector + 1) / fs.perCluster == |chain|
    {
      hide FatBuffers.Holds, Table, IsChain, Volume.Geometry, Shape, Disk, Volume.Lba, Blanks, RoomIn, HintOk, Shows, Whole,
        Ready, Apart, NoSpare;
      var ready := Prepare(sector, bytes, stuck);
      stops := stuck || !Room(bytenum + |data|);
      if !stops {
        StoredInCache(DiskNow(), cache, ready, bytes, sector, off, data);
        MoreRoom(|Written(bytes, bytenum, data)|, |bytes|, bytenum + |data|, Capacity(), fs.perCluster);
      } else if !stuck {
        BehindTheEnd(sector, off, data, bytes, ready);
      }
      cache := Cache(Spliced(ready, off, data), sector, true);
      bytenum := bytenum + |data|;
    }

    /** A sector without room is the first behind the chain, and nothing is left for it. */
    lemma BehindTheEnd(sector: nat, off: nat, data: seq<Byte>, bytes: seq<Byte>, ready: seq<Byte>)
      requires Holding(bytes) && Ready(DiskNow(), cache, ready, sector) && 512 * sector + off == bytenum && fs.perCluster >= 2
      requires off + |data| <= 512 && !Room(bytenum + |data|)
      ensures Left() == 0 && !cache.dirty && |bytes| == bytenum && Saved(bytes)
      ensures sector / fs.perCluster == |chain| && (sector + 1) / fs.perCluster == |chain|
    {
      hide FatBuffers.Holds, Table, IsChain, Volume.Geometry, Shape, Disk, Volume.Lba, Blanks, HintOk, Shows, Apart, NoSpare;
      SectorIndex(sector);
      Distribute(|chain|, Left(), fs.perCluster);
      if Left() > 0 {
        MulMono(1, Left(), fs.perCluster);
      }
      QuotientUnique(|chain| * fs.perCluster + 1, fs.perCluster, |chain|, 1);
      Reach(DiskNow(), cache, bytes);
      Refill(DiskNow(), cache, Cache(ZeroSector(), NONE, false), bytes);
    }

    // ---------- the operations ----------

    /** `fl_fflush`. On a full volume, data that belongs behind the file's clusters stays
        in the buffer. */
    method Flush()
      requires Valid() || Stuck(content)
      modifies this, fs
      ensures content == old(content) && bytenum == old(bytenum) && fileLength == old(fileLength) && mark == old(mark)
      ensures fs.Valid() && Capacity() == old(Capacity())
      ensures old(Valid()) ==> Valid() && !cache.dirty && Saved(content)
      ensures old(!Valid()) ==> Stuck(content) && cache == old(cache)
    {
      hide FatBuffers.Holds, Table, IsChain, Volume.Geometry, Shape, Disk, Volume.Lba, Blanks, RoomIn, HintOk, Shows, Whole, Apart, NoSpare;
      ghost var stuck := !Valid();
      FlushBuffer(content, stuck);
      if !stuck {
        Refill(DiskNow(), cache, Cache(ZeroSector(), NONE, false), content);
      }
    }

    /** `fl_fread` of `count` bytes: -1 without permission or at the end of the file, and
        otherwise the bytes at the cursor, as many as there are, which moves past them. */
    method Read(count: nat) returns (r: int, out: seq<Byte>)
      requires Valid() && bytenum + count < 0x1_0000_0000
      modifies fs`media, fs`buffers, fs`sectors, fs`nextFree, this`chain, this`hintIdx, this`hintCluster, this`cache, this`bytenum
      ensures Valid() && Capacity() == old(Capacity())
      ensures !canRead ==> r == -1 && out == [] && bytenum == old(bytenum)
      ensures canRead && count == 0 ==> r == 0 && out == [] && bytenum == old(bytenum)
      ensures canRead && count > 0 && old(bytenum) == |content| ==> r == -1 && out == [] && bytenum == old(bytenum)
      ensures canRead && count > 0 && old(bytenum) < |content| ==>
        && r == |out| == (if old(bytenum) + count > |content| then |content| - old(bytenum) else count)
        && bytenum == old(bytenum) + |out| && out == content[old(bytenum)..bytenum]
    {
      hide FatBuffers.Holds, Table, IsChain, Volume.Geometry, Shape, Disk, Volume.Lba, Blanks, RoomIn, HintOk, Shows, Whole, Apart, NoSpare;
      out := [];
      if !canRead {
        return -1, [];
      }
      if count == 0 {
        return 0, [];
      }
      if bytenum >= fileLength {
        return -1, [];
      }
      var total := if bytenum + count > fileLength then fileLength - bytenum else count;
      var sector: nat, off: nat := bytenum / 512, bytenum % 512;
      ghost var start := bytenum;
      while |out| < total
        invariant Holding(content) && Capacity() == old(Capacity())
        invariant |out| <= total && bytenum == start + |out| && out == content[start..bytenum]
        invariant |out| < total ==> off < 512 && 512 * sector + off == bytenum
        decreases total - |out|
      {
        if off == 0 && total - |out| >= 512 {
          var n, piece := ReadDirect(sector, (total - |out|) / 512, content);
          Appended(content, start, start + |out|, bytenum);
          out := out + piece;
          sector := sector + n;
        } else {
          var piece := ReadBuffered(sector, off, total - |out|, content);
          Appended(content, start, start + |out|, bytenum);
          out := out + piece;
          sector, off := sector + 1, 0;
        }
      }
      r := |out|;
    }

    /** The loop of `fl_fwrite`: whole sectors to the disk, the rest through the buffer. */
    method WriteAll(data: seq<Byte>, ghost was: seq<Byte>) returns (ghost held: seq<Byte>)
      requires bytenum <= |was| && bytenum + |data| < 0x1_0000_0000 && fs.Valid() && Stands(false, was)
      requires Room(bytenum + |data|) || (Enclosed() && fs.perCluster >= 2)
      modifies fs`media, fs`buffers, fs`sectors, fs`nextFree, this`chain, this`hintIdx, this`hintCluster, this`cache, this`bytenum
      ensures fs.Valid() && Capacity() == old(Capacity()) && old(bytenum) <= bytenum <= old(bytenum) + |data|
      ensures if old(Room(bytenum + |data|)) then bytenum == old(bytenum) + |data| && Holding(Written(was, old(bytenum), data))
              else Stuck(held) && Partly(held, was, old(bytenum), data)
    {
      hide Volume.Valid, Volume.Lba, Volume.Geometry, Volume.Fat, RoomIn, Written, WrittenUpTo, NoSpare, Partly, Holding, Stuck,
        Stands, Linked, OnChain, Left, DiskNow, OthersKept;
      var sector: nat, off: nat := bytenum / 512, bytenum % 512;
      ghost var at, stuck := bytenum, false;
      var done := 0;
      held := was;
      fs.GeometryFacts();
      WrittenEnds(was, at, data);
      while done < |data|
        invariant 0 <= done <= |data| && bytenum == at + done && fs.Valid() && Capacity() == old(Capacity())
        invariant Stands(stuck, if stuck then held else WrittenUpTo(was, at, data, done))
        invariant if stuck then Partly(held, was, at, data) && !Room(at + |data|) else Room(at + |data|) || (Enclosed() && fs.perCluster >= 2)
        invariant done < |data| ==> off < 512 && 512 * sector + off == bytenum
        invariant done < |data| && stuck ==> off == 0 && fs.perCluster > 0 && sector / fs.perCluster == |chain|
      {
        ghost var bytes := if stuck then held else WrittenUpTo(was, at, data, done);
        if off == 0 && |data| - done >= 512 {
          var n := WriteDirect(sector, data[done..], bytes, stuck);
          if n == 0 {
            if !stuck {
              PartlyWritten(was, at, data, done);
              held, stuck := bytes, true;
            }
            break;
          }
          WrittenOn(was, at, data, done, 512 * n);
          done := done + 512 * n;
          sector := sector + n;
        } else {
          var copyCount := if 512 - off > |data| - done then |data| - done else 512 - off;
          LaterRoom(bytenum + copyCount, at + |data|);
          ghost var stops := WriteBuffered(sector, off, data[done..][..copyCount], bytes, stuck);
          if stops && !stuck {
            LaterRoom(bytenum, at + |data|);
            PartlyWritten(was, at, data, done);
            held, stuck := bytes, true;
          }
          WrittenOn(was, at, data, done, copyCount);
          done := done + copyCount;
          sector, off := sector + 1, 0;
        }
      }
      StandsAs(stuck, if stuck then held else WrittenUpTo(was, at, data, done));
      if !stuck {
        HoldingRoom(Written(was, at, data));
        LaterRoom(at + |data|, |Written(was, at, data)|);
      }
    }

    /** `fl_fwrite`: -1 without permission; otherwise the bytes go to the cursor, or to the
        end of a file opened for appending, and the cursor moves past them. The call always
        claims to have written them all; it has exactly if there is room for them. */
    method Write(data: seq<Byte>) returns (r: int)
      requires Valid() && var at := if append then fileLength else bytenum;
        at + |data| < 0x1_0000_0000 && (Room(at + |data|) || (Enclosed() && fs.perCluster >= 2))
      modifies this, fs
      ensures fs.Valid() && Capacity() == old(Capacity()) && OthersKept(mark) && mark == old(mark)
      ensures !canWrite ==> r == -1 && Valid() && content == old(content) && bytenum == old(bytenum)
      ensures var at := if append then |old(content)| else old(bytenum); canWrite ==>
        && r == |data| && at <= bytenum <= at + |data| && at <= |old(content)|
        && if old(Room((if append then fileLength else bytenum) + |data|))
           then Valid() && content == Written(old(content), at, data) && bytenum == at + |data|
           else Stuck(content) && Partly(content, old(content), at, data)
      ensures fileLength == (if bytenum > old(fileLength) then bytenum else old(fileLength))
      ensures lengthChanged == (old(lengthChanged) || fileLength > old(fileLength))
    {
      hide FatBuffers.Holds, Table, IsChain, Volume.Geometry, Shape, Disk, Volume.Lba, Blanks, RoomIn, HintOk, Shows, Whole,
        Apart, NoSpare, Partly, Written;
      if !canWrite {
        return -1;
      }
      if append {
        bytenum := fileLength;
      }
      ghost var at, fits := bytenum, Room(bytenum + |data|);
      ghost var held := WriteAll(data, content);
      content := if fits then Written(content, at, data) else held;
      if bytenum > fileLength {
        fileLength := bytenum;
        lengthChanged := true;
      }
      r := |data|;
    }

    /** Written and flushed, the bytes are on the disk exactly if there was room for them,
        and no other file changed. */
    method WriteThenFlush(data: seq<Byte>) returns (r: int)
      requires Valid() && canWrite && var at := if append then fileLength else bytenum;
        at + |data| < 0x1_0000_0000 && (Room(at + |data|) || (Enclosed() && fs.perCluster >= 2))
      modifies this, fs
      ensures r == |data| && fs.Valid() && Capacity() == old(Capacity()) && OthersKept(old(Now()))
      ensures (if append then |old(content)| else old(bytenum)) <= |old(content)|
      ensures Saved(Written(old(content), if append then |old(content)| else old(bytenum), data))
        <==> old(Room((if append then fileLength else bytenum) + |data|))
    {
      hide FatBuffers.Holds, Table, IsChain, Volume.Geometry, Shape, Disk, Volume.Lba, Blanks, RoomIn, HintOk, Shows, Whole,
        Apart, NoSpare, Partly;
      ghost var at, was := if append then fileLength else bytenum, content;
      Remember();
      r := Write(data);
      Flush();
      ghost var all := Written(was, at, data);
      fs.GeometryFacts();
      if Saved(all) {
        SavedHasRoom(all);
        LaterRoom(at + |data|, |all|);
      }
    }

    lemma StandsAs(stuck: bool, bytes: seq<Byte>)
      requires Stands(stuck, bytes)
      ensures if stuck then Stuck(bytes) else Holding(bytes)
    {
    }

    lemma HoldingRoom(bytes: seq<Byte>)
      requires Holding(bytes)
      ensures fs.Valid() && Room(|bytes|)
    {
    }

    lemma SavedHasRoom(bytes: seq<Byte>)
      requires Linked() && fs.perCluster > 0 && Saved(bytes)
      ensures Room(|bytes|)
    {
      hide FatBuffers.Holds, Table, IsChain, Volume.Geometry, Shape, Disk, Volume.Lba, Blanks, RoomIn, HintOk, Shows, Whole, Apart, NoSpare;
      Reach(DiskNow(), Cache(ZeroSector(), NONE, false), bytes);
      RoomOnDisk(|bytes|);
    }

    lemma LaterRoom(n: nat, m: nat)
      requires fs.Valid() && n <= m
      ensures Room(m) ==> Room(n)
    {
    }

    /** The buffer holds no byte of the file that the disk does not. */
    ghost predicate NothingToLose()
      reads this, fs
    {
      !cache.dirty || forall k :: 0 <= k < |content| ==> AlreadySaved(DiskNow(), cache, k)
    }

    /** The buffer is forgotten, dirty or not. */
    method Forget()
      requires Valid()
      modifies this`cache
      ensures Linked() && Capacity() == old(Capacity()) && Room(|content|) && cache.address == NONE && !cache.dirty
      ensures Shows(DiskNow(), cache, content) <==> old(NothingToLose())
    {
      hide FatBuffers.Holds, Table, IsChain, Volume.Geometry, Shape, Disk, Volume.Lba, Blanks, RoomIn, HintOk, Shows, Whole,
        Apart, NoSpare, AlreadySaved;
      CacheFacts(DiskNow(), cache, content);
      if cache.dirty {
        ForgottenShows(DiskNow(), cache, content);
      } else {
        Refill(DiskNow(), cache, Cache(cache.data, NONE, false), content);
      }
      cache := Cache(cache.data, NONE, false);
    }

    /** `fl_fseek`: the cursor moves, to a place no further than the end of the file, and the
        buffer is forgotten unless the call is refused at once. The file keeps its bytes exactly if the buffer held none that the disk
        did not. */
    method Seek(offset: int, origin: Origin) returns (r: int)
      requires Valid() && -0x8000_0000 <= offset < 0x8000_0000
      modifies this`cache, this`bytenum
      ensures fs.Valid() && Capacity() == old(Capacity())
      ensures if origin == End && offset != 0 then Valid() && cache == old(cache)
              else cache.address == NONE && !cache.dirty && (Valid() <==> old(NothingToLose()))
      ensures r == if origin == Other || (origin == End && offset != 0) then -1 else 0
      ensures r == -1 ==> bytenum == old(bytenum)
      ensures origin == End && offset == 0 ==> bytenum == |content|
      ensures origin == Set && 0 <= offset ==> bytenum == if offset < |content| then offset else |content|
      ensures origin == Set && offset < 0 ==>
        var to := offset + 0x1_0000_0000; bytenum == if to < |content| then to else |content|
      ensures origin == Cur && 0 <= offset ==>
        var to := old(bytenum) + offset - (if old(bytenum) + offset < 0x1_0000_0000 then 0 else 0x1_0000_0000);
        bytenum == if to < |content| then to else |content|
      ensures origin == Cur && offset < 0 ==> bytenum == if old(bytenum) + offset > 0 then old(bytenum) + offset else 0
      ensures bytenum == if SeekRefused(offset, origin) then old(bytenum) else SeekTarget(offset, origin, old(bytenum), |content|)
    {
      hide FatBuffers.Holds, Table, IsChain, Volume.Geometry, Shape, Disk, Volume.Lba, Blanks, RoomIn, HintOk, Shows, Whole,
        Apart, NoSpare, NothingToLose;
      if origin == End && offset != 0 {
        return -1;
      }
      SeekSums(offset, bytenum);
      Forget();
      r := 0;
      match origin {
        case Set =>
          bytenum := offset % 0x1_0000_0000;
          if bytenum > fileLength {
            bytenum := fileLength;
          }
        case Cur =>
          if offset >= 0 {
            bytenum := (bytenum + offset) % 0x1_0000_0000;
            if bytenum > fileLength {
              bytenum := fileLength;
            }
          } else {
            var back := -offset;
            bytenum := if back > bytenum then 0 else bytenum - back;
          }
        case End =>
          bytenum := fileLength;
        case Other =>
          r := -1;
      }
    }

    // ---------- runs ----------

    /** Any run of operations, a flush before every seek, gives the answers of a plain
        byte sequence with a cursor and leaves the file as that sequence, and no other file
        changed. */
    method Run(ops: seq<Op>, ghost bound: nat) returns (answers: seq<Answer>)
      requires Valid() && bound < 0x1_0000_0000 && |content| <= bound && Room(bound)
      requires Fitting(Plain(content, bytenum), Mode(canRead, canWrite, append), ops, bound)
      modifies this, fs
      ensures Valid() && |answers| == |ops| && OthersKept(old(Now()))
      ensures forall i :: 0 <= i < |ops| ==> answers[i] == PlainAnswer(old(Plain(content, bytenum)), Mode(canRead, canWrite, append), ops, i)
      ensures Plain(content, bytenum) == PlainAfter(old(Plain(content, bytenum)), Mode(canRead, canWrite, append), ops, |ops|)
    {
      hide FatBuffers.Holds, Table, IsChain, Volume.Geometry, Shape, Disk, Volume.Lba, Blanks, RoomIn, HintOk, Shows, Whole,
        Written, Apart, NoSpare, PlainStep, OpFits, PlainAnswer;
      answers := [];
      Remember();
      ghost var p0, mode := Plain(content, bytenum), Mode(canRead, canWrite, append);
      var i := 0;
      while i < |ops|
        invariant 0 <= i == |answers| <= |ops| && Valid() && |content| <= bound && Room(bound) && mark == old(Now())
        invariant Plain(content, bytenum) == PlainAfter(p0, mode, ops, i)
        invariant forall j :: 0 <= j < i ==> answers[j] == PlainAnswer(p0, mode, ops, j)
      {
        FitsAt(p0, mode, ops, bound, i);
        var answer := Do(ops[i], bound);
        answers := answers + [answer];
        i := i + 1;
      }
    }

    method Do(op: Op, ghost bound: nat) returns (answer: Answer)
      requires Valid() && bound < 0x1_0000_0000 && |content| <= bound && Room(bound)
      requires OpFits(Plain(content, bytenum), Mode(canRead, canWrite, append), op, bound)
      modifies this, fs
      ensures Valid() && |content| <= bound && Room(bound) && mark == old(mark)
      ensures (Plain(content, bytenum), answer) == PlainStep(old(Plain(content, bytenum)), Mode(canRead, canWrite, append), op)
    {
      hide FatBuffers.Holds, Table, IsChain, Volume.Geometry, Shape, Disk, Volume.Lba, Blanks, RoomIn, HintOk, Shows, Whole,
        Written, Apart, NoSpare;
      match op {
        case ReadBytes(count) =>
          var r, out := Read(count);
          answer := Answer(r, out);
        case WriteBytes(data) =>
          LaterRoom((if append then fileLength else bytenum) + |data|, bound);
          var r := Write(data);
          answer := Answer(r, []);
        case FlushFile =>
          Flush();
          answer := Answer(0, []);
        case SeekTo(offset, origin) =>
          Flush();
          var r := Seek(offset, origin);
          answer := Answer(r, []);
      }
    }
  }
}
