/** A file as a list of sectors behind one write-back sector buffer, and the plain byte
    sequence that the two show together. */
module FileView {
  import opened Bytes
  import opened FatTable

  const NONE: nat := 0xFFFF_FFFF   // the buffer holds no sector

  datatype Cache = Cache(data: seq<Byte>, address: nat, dirty: bool)

  /** Sector `s` of the file as a reader must see it. */
  ghost function SectorOf(disk: seq<seq<Byte>>, c: Cache, s: nat): seq<Byte> {
    if c.dirty && c.address == s then c.data else if s < |disk| then disk[s] else []
  }

  /** A clean buffer equals its sector; a dirty one may be the first beyond the end. */
  ghost predicate CacheOk(disk: seq<seq<Byte>>, c: Cache) {
    && |c.data| == 512 && |disk| < NONE
    && (c.address == NONE ==> !c.dirty)
    && (c.address != NONE && !c.dirty ==> c.address < |disk| && c.data == disk[c.address])
    && (c.dirty ==> c.address <= |disk|)
  }

  ghost predicate ByteShown(disk: seq<seq<Byte>>, c: Cache, content: seq<Byte>, k: nat)
    requires k < |content|
  {
    var s := SectorOf(disk, c, k / 512);
    k % 512 < |s| && content[k] == s[k % 512]
  }

  /** Disk and buffer together hold the bytes of `content`. */
  ghost predicate Shows(disk: seq<seq<Byte>>, c: Cache, content: seq<Byte>) {
    Whole(disk) && CacheOk(disk, c) && forall k :: 0 <= k < |content| ==> ByteShown(disk, c, content, k)
  }

  lemma CacheFacts(disk: seq<seq<Byte>>, c: Cache, content: seq<Byte>)
    requires Shows(disk, c, content)
    ensures |c.data| == 512 && (c.dirty ==> c.address <= |disk| && c.address != NONE)
  {
  }

  /** `content` with `bytes` written at `pos`, growing if they reach beyond its end. */
  function Written(content: seq<Byte>, pos: nat, bytes: seq<Byte>): (r: seq<Byte>)
    requires pos <= |content|
    ensures |r| == if pos + |bytes| > |content| then pos + |bytes| else |content|
    ensures forall k :: 0 <= k < |r| ==> r[k] == if pos <= k < pos + |bytes| then bytes[k - pos] else content[k]
  {
    content[..pos] + bytes + (if pos + |bytes| < |content| then content[pos + |bytes|..] else [])
  }

  /** Two writes in a row are one. */
  lemma WrittenTwice(content: seq<Byte>, pos: nat, a: seq<Byte>, b: seq<Byte>)
    requires pos <= |content|
    ensures Written(Written(content, pos, a), pos + |a|, b) == Written(content, pos, a + b)
  {
  }

  // ---------- steps ----------

  /** Writing the buffer back. */
  lemma Flushed(disk: seq<seq<Byte>>, c: Cache, content: seq<Byte>)
    requires Shows(disk, c, content) && c.dirty && c.address < |disk|
    ensures Shows(disk[c.address := c.data], c.(dirty := false), content)
  {
    var disk', c' := disk[c.address := c.data], c.(dirty := false);
    forall k | 0 <= k < |content|
      ensures ByteShown(disk', c', content, k)
    {
      assert ByteShown(disk, c, content, k);
    }
  }

  /** More sectors at the end. */
  lemma Grown(disk: seq<seq<Byte>>, extra: seq<seq<Byte>>, c: Cache, content: seq<Byte>)
    requires Shows(disk, c, content) && Whole(extra) && |disk| + |extra| < NONE
    ensures Shows(disk + extra, c, content)
  {
    forall k | 0 <= k < |content|
      ensures ByteShown(disk + extra, c, content, k)
    {
      assert ByteShown(disk, c, content, k);
    }
  }

  /** Writing the buffer back, to a file that may have grown for it. */
  lemma FlushedBy(disk: seq<seq<Byte>>, extra: seq<seq<Byte>>, disk': seq<seq<Byte>>, c: Cache, content: seq<Byte>)
    requires Shows(disk, c, content) && c.dirty && Whole(extra) && |disk'| < NONE
    requires Replaced(disk + extra, disk', c.address, 1, c.data[..512])
    ensures Shows(disk', c.(dirty := false), content)
  {
    Grown(disk, extra, c, content);
    Flushed(disk + extra, c, content);
    assert c.data[..512][0..512] == c.data;
    assert disk' == (disk + extra)[c.address := c.data];
  }

  /** Forgetting a clean buffer, or filling it from another sector. */
  lemma Refilled(disk: seq<seq<Byte>>, c: Cache, c': Cache, content: seq<Byte>)
    requires Shows(disk, c, content) && !c.dirty && !c'.dirty && |c'.data| == 512
    requires c'.address == NONE || (c'.address < |disk| && c'.data == disk[c'.address])
    ensures Shows(disk, c', content)
  {
    forall k | 0 <= k < |content|
      ensures ByteShown(disk, c', content, k)
    {
      assert ByteShown(disk, c, content, k);
    }
  }

  /** The content reaches no further than the sectors and a dirty buffer behind them. */
  lemma Reach(disk: seq<seq<Byte>>, c: Cache, content: seq<Byte>)
    requires Shows(disk, c, content)
    ensures |content| <= 512 * |disk| + (if c.dirty && c.address == |disk| then 512 else 0)
  {
    if |content| > 0 {
      assert ByteShown(disk, c, content, |content| - 1);
    }
  }

  /** `disk'` is `disk` with the sectors from `s` on replaced by those in `bytes`. */
  ghost predicate Replaced(disk: seq<seq<Byte>>, disk': seq<seq<Byte>>, s: nat, n: nat, bytes: seq<Byte>) {
    && |disk'| == |disk| && |bytes| == 512 * n && s + n <= |disk|
    && (forall i :: 0 <= i < |disk| && !(s <= i < s + n) ==> disk'[i] == disk[i])
    && (forall i :: s <= i < s + n ==> disk'[i] == bytes[512 * (i - s)..512 * (i - s) + 512])
  }

  /** Whole sectors written past an empty buffer. */
  lemma DirectlyWritten(disk: seq<seq<Byte>>, disk': seq<seq<Byte>>, c: Cache, content: seq<Byte>, s: nat, n: nat, bytes: seq<Byte>)
    requires Shows(disk, c, content) && c.address == NONE && Replaced(disk, disk', s, n, bytes) && 512 * s <= |content|
    ensures Shows(disk', c, Written(content, 512 * s, bytes))
  {
    var content' := Written(content, 512 * s, bytes);
    forall k | 0 <= k < |content'|
      ensures ByteShown(disk', c, content', k)
    {
      if s <= k / 512 < s + n {
        assert disk'[k / 512] == bytes[512 * (k / 512 - s)..512 * (k / 512 - s) + 512];
      } else {
        assert ByteShown(disk, c, content, k);
      }
    }
  }

  /** Whole sectors written to a file that may have grown for them. */
  lemma DirectlyWrittenBy(disk: seq<seq<Byte>>, extra: seq<seq<Byte>>, disk': seq<seq<Byte>>, c: Cache, content: seq<Byte>,
                          s: nat, n: nat, bytes: seq<Byte>)
    requires Shows(disk, c, content) && c.address == NONE && Whole(extra) && |disk'| < NONE
    requires Replaced(disk + extra, disk', s, n, bytes) && 512 * s <= |content|
    ensures Shows(disk', c, Written(content, 512 * s, bytes))
  {
    Grown(disk, extra, c, content);
    DirectlyWritten(disk + extra, disk', c, content, s, n, bytes);
  }

  /** What the buffer must hold before bytes are stored into it: the sector as a reader
      sees it, or zeros where the file has no sector yet. */
  ghost predicate Ready(disk: seq<seq<Byte>>, c: Cache, data: seq<Byte>, s: nat) {
    && |data| == 512 && s <= |disk|
    && (if c.dirty then c.address == s && data == c.data else s < |disk| ==> data == disk[s])
  }

  /** Bytes stored into the buffer. */
  lemma StoredInCache(disk: seq<seq<Byte>>, c: Cache, data: seq<Byte>, content: seq<Byte>, s: nat, off: nat, bytes: seq<Byte>)
    requires Shows(disk, c, content) && Ready(disk, c, data, s)
    requires 512 * s + off <= |content| && off + |bytes| <= 512
    ensures Shows(disk, Cache(Spliced(data, off, bytes), s, true), Written(content, 512 * s + off, bytes))
  {
    var c', content' := Cache(Spliced(data, off, bytes), s, true), Written(content, 512 * s + off, bytes);
    Reach(disk, c, content);
    forall k | 0 <= k < |content'|
      ensures ByteShown(disk, c', content', k)
    {
      if k < |content| {
        assert ByteShown(disk, c, content, k);
      }
    }
  }

  // ---------- reading ----------

  /** A buffered sector shows the file's bytes. */
  lemma CacheShows(disk: seq<seq<Byte>>, c: Cache, content: seq<Byte>, j: nat)
    requires Shows(disk, c, content) && c.address != NONE && j < 512 && 512 * c.address + j < |content|
    ensures content[512 * c.address + j] == c.data[j]
  {
    assert ByteShown(disk, c, content, 512 * c.address + j);
  }

  /** Sectors behind a dirty buffer show the file's bytes on disk. */
  lemma DiskShows(disk: seq<seq<Byte>>, c: Cache, content: seq<Byte>, k: nat)
    requires Shows(disk, c, content) && k < |content| && (c.dirty ==> c.address != k / 512)
    ensures k / 512 < |disk| && |disk[k / 512]| == 512 && content[k] == disk[k / 512][k % 512]
  {
    assert ByteShown(disk, c, content, k);
  }

  /** `data` is what the sectors `s` to below `s + n` hold. */
  ghost predicate ReadFrom(disk: seq<seq<Byte>>, s: nat, n: nat, data: seq<Byte>) {
    && s + n <= |disk| && |data| == 512 * n
    && forall k :: 0 <= k < |data| ==> k % 512 < |disk[s + k / 512]| && data[k] == disk[s + k / 512][k % 512]
  }

  /** Sectors read past the buffer are the file's bytes, if no dirty buffer is among them. */
  lemma DirectlyRead(disk: seq<seq<Byte>>, c: Cache, content: seq<Byte>, s: nat, n: nat, data: seq<Byte>)
    requires Shows(disk, c, content) && (c.dirty ==> c.address < s) && 512 * (s + n) <= |content| && ReadFrom(disk, s, n, data)
    ensures |data| == 512 * n && data == content[512 * s..512 * s + 512 * n]
  {
    forall k | 0 <= k < |data|
      ensures data[k] == content[512 * s + k]
    {
      assert data[k] == disk[s + k / 512][k % 512];
      DiskShows(disk, c, content, 512 * s + k);
    }
  }

  /** Bytes copied out of the buffer are the file's. */
  lemma CopiedOut(disk: seq<seq<Byte>>, c: Cache, content: seq<Byte>, off: nat, n: nat)
    requires Shows(disk, c, content) && c.address != NONE && off + n <= 512 && 512 * c.address + off + n <= |content|
    ensures |c.data| == 512 && c.data[off..off + n] == content[512 * c.address + off..512 * c.address + off + n]
  {
    var from := 512 * c.address + off;
    var a, b := c.data[off..off + n], content[from..from + n];
    forall j | 0 <= j < n
      ensures a[j] == b[j]
    {
      CacheShows(disk, c, content, off + j);
    }
  }

  lemma InsideDisk(disk: seq<seq<Byte>>, c: Cache, content: seq<Byte>, s: nat)
    requires Shows(disk, c, content) && 512 * s < |content| && (c.dirty ==> c.address != s)
    ensures s < |disk|
  {
    DiskShows(disk, c, content, 512 * s);
  }

  /** Byte `k` of the file is not in the buffered sector, or the disk holds it too. */
  ghost predicate AlreadySaved(disk: seq<seq<Byte>>, c: Cache, k: nat) {
    k / 512 == c.address ==>
      c.address < |disk| && k % 512 < |disk[c.address]| && k % 512 < |c.data| && c.data[k % 512] == disk[c.address][k % 512]
  }

  /** Forgetting a dirty buffer keeps the file's bytes exactly if the disk already held
      them. */
  lemma ForgottenShows(disk: seq<seq<Byte>>, c: Cache, content: seq<Byte>)
    requires Shows(disk, c, content) && c.dirty
    ensures Shows(disk, c.(address := NONE, dirty := false), content)
       <==> forall k :: 0 <= k < |content| ==> AlreadySaved(disk, c, k)
  {
    var c' := c.(address := NONE, dirty := false);
    forall k | 0 <= k < |content|
      ensures ByteShown(disk, c', content, k) <==> AlreadySaved(disk, c, k)
    {
      assert ByteShown(disk, c, content, k);
    }
  }
}
