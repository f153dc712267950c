/** The file allocation table of a FAT16 or FAT32 volume behind its list of sector
    buffers: lookups, link writes, the search for a free cluster and the free-cluster
    hint act on a plain table of entries, whatever the buffers hold. */
module FatTable {
  import opened Bytes

  const INVALID: nat := 0xFFFF_FFFF   // the address of an unused buffer
  const LAST: nat := 0xFFFF_FFFF      // the answer at the end of a chain

  // ---------- entries ----------

  function PerSector(fat32: bool): nat {
    if fat32 then 128 else 256
  }

  function EntryAt(fat32: bool, j: nat): nat {
    if fat32 then 4 * j else 2 * j
  }

  /** An entry of a sector; of a FAT32 entry, its low 28 bits. */
  function Entry(fat32: bool, data: seq<Byte>, j: nat): nat
    requires |data| == 512 && j < PerSector(fat32)
  {
    if fat32 then Word32(data, 4 * j) % 0x1000_0000 else Word16(data, 2 * j)
  }

  /** What an entry holds after `v` is written to it. */
  function Stored(fat32: bool, v: nat): nat {
    if fat32 then v % 0x1000_0000 else v % 0x1_0000
  }

  function EndMark(fat32: bool): nat {
    if fat32 then 0x0FFF_FFF8 else 0xFFF8
  }

  /** The successor that an entry names. */
  function Next(fat32: bool, entry: nat): nat {
    if entry >= EndMark(fat32) then LAST else entry
  }

  function Rewritten(fat32: bool, data: seq<Byte>, j: nat, v: nat): (r: seq<Byte>)
    requires |data| == 512 && j < PerSector(fat32)
    ensures |r| == 512
  {
    Spliced(data, EntryAt(fat32, j), if fat32 then Bytes32(v) else Bytes16(v))
  }

  lemma EntryRewritten(fat32: bool, data: seq<Byte>, j: nat, v: nat, k: nat)
    requires |data| == 512 && j < PerSector(fat32) && k < PerSector(fat32)
    ensures Entry(fat32, Rewritten(fat32, data, j, v), k) == if k == j then Stored(fat32, v) else Entry(fat32, data, k)
  {
    if fat32 {
      if k == j {
        Word32Written(data, 4 * j, v);
        Low28(v);
      } else {
        Word32Kept(data, 4 * j, Bytes32(v), 4 * k);
      }
    } else if k == j {
      Word16Written(data, 2 * j, v);
    } else {
      Word16Kept(data, 2 * j, Bytes16(v), 2 * k);
    }
  }

  lemma Low28(v: nat)
    ensures v % 0x1_0000_0000 % 0x1000_0000 == v % 0x1000_0000
  {
    var q := v / 0x1_0000_0000;
    assert v == v % 0x1_0000_0000 + 0x1000_0000 * (16 * q);
    AddMultiple(v % 0x1_0000_0000, 16 * q);
  }

  lemma {:induction false} AddMultiple(a: nat, q: nat)
    ensures (a + 0x1000_0000 * q) % 0x1000_0000 == a % 0x1000_0000
  {
  }

  // ---------- sectors ----------

  function ZeroSector(): (s: seq<Byte>)
    ensures |s| == 512
  {
    seq(512, i => 0)
  }

  // ---------- the plain table ----------

  ghost predicate Whole(sectors: seq<seq<Byte>>) {
    forall k :: 0 <= k < |sectors| ==> |sectors[k]| == 512
  }

  /** The entry of cluster `c`. */
  ghost function At(fat32: bool, sectors: seq<seq<Byte>>, c: nat): nat
    requires Whole(sectors) && c / PerSector(fat32) < |sectors|
  {
    Entry(fat32, sectors[c / PerSector(fat32)], c % PerSector(fat32))
  }

  /** The table that the sectors of a FAT hold. */
  ghost function Table(fat32: bool, sectors: seq<seq<Byte>>): (t: seq<nat>)
    requires Whole(sectors)
    ensures |t| == |sectors| * PerSector(fat32)
  {
    seq(|sectors| * PerSector(fat32), c requires 0 <= c < |sectors| * PerSector(fat32) => At(fat32, sectors, c))
  }

  lemma SectorWritten(fat32: bool, sectors: seq<seq<Byte>>, c: nat, v: nat)
    requires Whole(sectors) && c < |sectors| * PerSector(fat32)
    ensures var k, j := c / PerSector(fat32), c % PerSector(fat32);
      var written := sectors[k := Rewritten(fat32, sectors[k], j, v)];
      Whole(written) && Table(fat32, written) == Table(fat32, sectors)[c := Stored(fat32, v)]
  {
    hide Entry, Rewritten, Stored;
    var per := PerSector(fat32);
    var k, j := c / per, c % per;
    var written := sectors[k := Rewritten(fat32, sectors[k], j, v)];
    forall d | 0 <= d < |sectors| * per
      ensures Table(fat32, written)[d] == if d == c then Stored(fat32, v) else Table(fat32, sectors)[d]
    {
      if d / per == k {
        EntryRewritten(fat32, sectors[k], j, v, d % per);
      }
    }
    assert Table(fat32, written) == Table(fat32, sectors)[c := Stored(fat32, v)];
  }
}
