/** Formatting a volume, and mounting what the formatter wrote. */
module FatFormat {
  import opened Bytes
  import opened FatTable
  import opened FatChains
  import opened FatVolume
  import opened FileDisk

  /** The parameters of a volume, as the formatter sets and the mount code reads them. */
  datatype Params = Params(fat32: bool, lbaBegin: nat, perCluster: nat, fatSectors: nat, fatBegin: nat, clusterBegin: nat,
    rootEntries: nat, rootFirstSector: nat, rootSectors: nat, rootCluster: nat, infoSector: nat, clusters: nat)

  // ---------- cluster size ----------

  const TABLE16: seq<(nat, nat)> := [(32680, 2), (262144, 4), (524288, 8), (1048576, 16), (2097152, 32), (4194304, 64), (8388608, 128)]
  const TABLE32: seq<(nat, nat)> := [(532480, 1), (16777216, 8), (33554432, 16), (67108864, 32), (0xFFFF_FFFF, 64)]

  /** Sectors to a cluster; 0 for a volume that is too large. */
  function ClusterSize(sectors: nat, fat32: bool): nat {
    if fat32 then
      if sectors <= 532480 then 1 else if sectors <= 16777216 then 8 else if sectors <= 33554432 then 16
      else if sectors <= 67108864 then 32 else if sectors <= 0xFFFF_FFFF then 64 else 0
    else
      if sectors <= 32680 then 2 else if sectors <= 262144 then 4 else if sectors <= 524288 then 8 else if sectors <= 1048576 then 16
      else if sectors <= 2097152 then 32 else if sectors <= 4194304 then 64 else if sectors <= 8388608 then 128 else 0
  }

  /** `fatfs_calc_cluster_size`: the first row of the table that covers the volume. */
  method CalcClusterSize(sectors: nat, fat32: bool) returns (per: nat)
    ensures per == ClusterSize(sectors, fat32)
  {
    var table := if fat32 then TABLE32 else TABLE16;
    var i := 0;
    while i < |table|
      invariant 0 <= i <= |table| && forall j :: 0 <= j < i ==> sectors > table[j].0
    {
      if sectors <= table[i].0 {
        assert i > 0 ==> sectors > table[i - 1].0;
        assert i == 0 || i == 1 || i == 2 || i == 3 || i == 4 || i == 5 || i == 6;
        return table[i].1;
      }
      i := i + 1;
    }
    assert sectors > table[|table| - 1].0;
    per := 0;
  }

  /** The sizes of clusters in bytes, as section "FAT Volume Initialization" of the Microsoft
      FAT32 File System Specification 1.03 tabulates them. */
  lemma ClusterBytes(vol: nat)
    ensures var b := ClusterSize(vol, true) * 512; var volume := vol * 512;
      vol <= 0xFFFF_FFFF ==>
        b == if volume <= 260 * 0x10_0000 then 512 else if volume <= 8 * 0x4000_0000 then 4096
             else if volume <= 16 * 0x4000_0000 then 8192 else if volume <= 32 * 0x4000_0000 then 16384 else 32768
    ensures var b := ClusterSize(vol, false) * 512; var volume := vol * 512;
      b == if vol <= 32680 then 1024 else if volume <= 128 * 0x10_0000 then 2048 else if volume <= 256 * 0x10_0000 then 4096
           else if volume <= 512 * 0x10_0000 then 8192 else if volume <= 1024 * 0x10_0000 then 16384
           else if volume <= 2048 * 0x10_0000 then 32768 else if volume <= 4096 * 0x10_0000 then 65536 else 0
  {
  }

  /** Above 64 megabytes a FAT16 cluster is the smallest power of two of which 65536 cover
      the volume. */
  lemma SmallestCluster(vol: nat)
    requires 131072 < vol <= 8388608
    ensures var per := ClusterSize(vol, false); 32768 * per < vol <= 65536 * per && per in {4, 8, 16, 32, 64, 128}
  {
  }

  // ---------- the boot sector ----------

  function FatSectorsFor(vol: nat, per: nat, fat32: bool): (n: nat)
    requires per > 0
    ensures n > 0
  {
    var clusters := vol / per + 1;
    if fat32 then clusters / 128 + 1 else clusters / 256 + 1
  }

  function Reserved(fat32: bool): nat {
    if fat32 then 32 else 8
  }

  function RootEntries(fat32: bool): nat {
    if fat32 then 0 else 512
  }

  /** What of the boot sector the mount code reads. */
  ghost predicate BootFields(b: seq<Byte>, vol: nat, per: nat, fats: nat, fat32: bool) {
    && |b| == 512 && b[450] == 0 && b[510] == 0x55 && b[511] == 0xAA
    && Word16(b, 11) == 512 && b[13] as int == per && Word16(b, 14) == Reserved(fat32) && b[16] == 2
    && Word16(b, 17) == RootEntries(fat32) && Word16(b, 19) == 0 && Word32(b, 32) == vol
    && (if fat32 then Word16(b, 22) == 0 && Word32(b, 36) == fats && Word32(b, 44) == 2 && Word16(b, 48) == 1
        else Word16(b, 22) == fats)
  }

  /** The first 22 bytes, the same for both types but for two fields. */
  ghost predicate BootHead(b: seq<Byte>, per: nat, fat32: bool) {
    && |b| == 512 && (forall i :: 22 <= i < 512 ==> b[i] == 0)
    && Word16(b, 11) == 512 && b[13] as int == per && Word16(b, 14) == Reserved(fat32) && b[16] == 2
    && Word16(b, 17) == RootEntries(fat32) && Word16(b, 19) == 0
  }

  method CreateHead(per: nat, fat32: bool) returns (b: seq<Byte>)
    requires per < 256
    ensures BootHead(b, per, fat32)
  {
    b := seq(512, i => 0);
    b := b[0 := 0xEB][1 := 0x3C][2 := 0x90][3 := 0x4D][4 := 0x53][5 := 0x44][6 := 0x4F][7 := 0x53][8 := 0x35][9 := 0x2E][10 := 0x30];
    b := b[11 := 0][12 := 2];
    b := b[13 := per as Byte];
    b := b[14 := if fat32 then 32 else 8][15 := 0];
    b := b[16 := 2];
    b := b[17 := 0][18 := if fat32 then 0 else 2];
    b := b[19 := 0][20 := 0][21 := 0xF8];
  }

  /** The label, padded with spaces, at `at`. */
  method Label(b: seq<Byte>, at: nat, name: seq<Byte>) returns (r: seq<Byte>)
    requires |b| == 512 && at + 11 <= 512
    ensures |r| == 512 && forall i :: 0 <= i < 512 && !(at <= i < at + 11) ==> r[i] == b[i]
    ensures forall i :: 0 <= i < 11 ==> r[at + i] == if i < |name| then name[i] else 0x20
  {
    r := b;
    for i := 0 to 11
      invariant |r| == 512 && forall j :: 0 <= j < 512 && !(at <= j < at + i) ==> r[j] == b[j]
      invariant forall j :: 0 <= j < i ==> r[at + j] == if j < |name| then name[j] else 0x20
    {
      r := r[at + i := if i < |name| then name[i] else 0x20];
    }
  }

  /** A 32-bit field, byte by byte. */
  method Put32(b: seq<Byte>, at: nat, w: nat) returns (r: seq<Byte>)
    requires |b| == 512 && at + 4 <= 512 && w < 0x1_0000_0000
    ensures |r| == 512 && Word32(r, at) == w && forall i :: 0 <= i < 512 && !(at <= i < at + 4) ==> r[i] == b[i]
  {
    r := b[at := (w % 256) as Byte];
    r := r[at + 1 := (w / 256 % 256) as Byte];
    r := r[at + 2 := (w / 256 / 256 % 256) as Byte];
    r := r[at + 3 := (w / 256 / 256 / 256 % 256) as Byte];
    Digits(w);
  }

  method CreateTail16(head: seq<Byte>, per: nat, vol: nat, fats: nat, name: seq<Byte>) returns (b: seq<Byte>)
    requires BootHead(head, per, false) && vol < 0x1_0000_0000 && fats < 0x1_0000
    ensures BootFields(b, vol, per, fats, false)
  {
    b := head;
    b := b[22 := (fats % 256) as Byte][23 := (fats / 256 % 256) as Byte];
    b := b[28 := 0x20];
    b := Put32(b, 32, vol);
    b := b[38 := 0x29][39 := 0x12][40 := 0x34][41 := 0x56][42 := 0x78];
    b := Label(b, 43, name);
    b := b[54 := 0x46][55 := 0x41][56 := 0x54][57 := 0x31][58 := 0x36][59 := 0x20][60 := 0x20][61 := 0x20];
    b := b[510 := 0x55][511 := 0xAA];
    Digits16(fats);
  }

  method CreateTail32(head: seq<Byte>, per: nat, vol: nat, fats: nat, name: seq<Byte>) returns (b: seq<Byte>)
    requires BootHead(head, per, true) && vol < 0x1_0000_0000 && fats < 0x1_0000_0000
    ensures BootFields(b, vol, per, fats, true)
  {
    b := head;
    b := b[24 := 0x3F][26 := 0xFF];
    b := Put32(b, 32, vol);
    b := Put32(b, 36, fats);
    b := b[44 := 2][48 := 1][50 := 6];
    b := b[66 := 0x29][67 := 0x12][68 := 0x34][69 := 0x56][70 := 0x78];
    b := Label(b, 71, name);
    b := b[82 := 0x46][83 := 0x41][84 := 0x54][85 := 0x33][86 := 0x32][87 := 0x20][88 := 0x20][89 := 0x20];
    b := b[510 := 0x55][511 := 0xAA];
  }

  /** `fatfs_create_boot_sector`: refused for a volume without a cluster size. */
  method CreateBootSector(vol: nat, name: seq<Byte>, fat32: bool) returns (ok: bool, b: seq<Byte>, per: nat, fats: nat)
    requires vol < 0x1_0000_0000
    ensures per == ClusterSize(vol, fat32) && ok == (per > 0)
    ensures ok ==> fats == FatSectorsFor(vol, per, fat32) && BootFields(b, vol, per, fats, fat32)
  {
    hide BootFields, BootHead;
    per := CalcClusterSize(vol, fat32);
    if per == 0 {
      return false, [], 0, 0;
    }
    var head := CreateHead(per, fat32);
    if fat32 {
      fats := (vol / per + 1) / 128 + 1;
      FatSize(vol, per, fat32);
      b := CreateTail32(head, per, vol, fats, name);
    } else {
      fats := (vol / per + 1) / 256 + 1;
      FatSize(vol, per, fat32);
      b := CreateTail16(head, per, vol, fats, name);
    }
    ok := true;
  }

  lemma FatSize(vol: nat, per: nat, fat32: bool)
    requires per == ClusterSize(vol, fat32) && per > 0 && vol < 0x1_0000_0000
    ensures FatSectorsFor(vol, per, fat32) < if fat32 then 0x1_0000_0000 else 0x1_0000
  {
  }

  // ---------- mounting ----------

  datatype MountResult = Error(code: int) | Mounted(params: Params)

  /** Which partition types of sector 0 are taken for a partition table entry. */
  predicate IsPartition(t: Byte) {
    t in {0x0B, 0x06, 0x0C, 0x0E, 0x0F, 0x05} || (t != 0 && t <= 0x06)
  }

  function U32(x: int): nat {
    x % 0x1_0000_0000
  }

  // Fields of the boot sector, and what is computed from them.

  function FatSectorsOf(b: seq<Byte>): nat
    requires |b| == 512
  {
    if Word16(b, 22) != 0 then Word16(b, 22) else Word32(b, 36)
  }

  function RootSectorsOf(b: seq<Byte>): nat
    requires |b| == 512
  {
    (Word16(b, 17) * 32 + 511) / 512
  }

  function TotalOf(b: seq<Byte>): nat
    requires |b| == 512
  {
    if Word16(b, 19) != 0 then Word16(b, 19) else Word32(b, 32)
  }

  function DataSectorsOf(b: seq<Byte>): nat
    requires |b| == 512
  {
    U32(TotalOf(b) - (Word16(b, 14) + b[16] as int * FatSectorsOf(b) + RootSectorsOf(b)))
  }

  /** The parameters read for a volume at `lba` of `clusters` clusters. */
  function ParamsOf(b: seq<Byte>, lba: nat, clusters: nat): Params
    requires |b| == 512
  {
    var reserved, both, fat32 := Word16(b, 14), b[16] as int * FatSectorsOf(b), clusters >= 65525;
    Params(fat32, lba, b[13] as int, FatSectorsOf(b), U32(lba + reserved), U32(U32(lba + reserved) + both),
           Word16(b, 17), U32(reserved + both), RootSectorsOf(b), if fat32 then Word32(b, 44) else 0, Word16(b, 48), clusters)
  }

  /** `fatfs_init` from the volume's first sector on. */
  function MountVolume(b: seq<Byte>, lba: nat): MountResult
    requires |b| == 512
  {
    if Word16(b, 11) != 512 then Error(-2)
    else if Word16(b, 510) != 0xAA55 then Error(-3)
    else if b[13] == 0 then Error(-5)
    else
      var clusters := DataSectorsOf(b) / b[13] as int;
      if clusters < 4085 then Error(-5) else Mounted(ParamsOf(b, lba, clusters))
  }

  /** `fatfs_init`. */
  function Mount(media: seq<seq<Byte>>): MountResult
    requires Whole(media) && |media| > 0
  {
    var mbr := media[0];
    if mbr[510] != 0x55 || mbr[511] != 0xAA then Error(-3)
    else
      var lba := if IsPartition(mbr[450]) then Word32(mbr, 454) else 0;
      if lba >= |media| then Error(-1) else MountVolume(media[lba], lba)
  }

  // ---------- what the formatter's boot sector mounts as ----------

  /** The formatter's own idea of the volume. */
  function Formatted(vol: nat, fat32: bool): Params
    requires ClusterSize(vol, fat32) > 0
  {
    var per := ClusterSize(vol, fat32);
    var fats := FatSectorsFor(vol, per, fat32);
    var begin := Reserved(fat32) + 2 * fats;
    Params(fat32, 0, per, fats, Reserved(fat32), begin, RootEntries(fat32), begin, if fat32 then 0 else 32,
           if fat32 then 2 else 0, if fat32 then 1 else 0,
           if vol < DataStart(vol, fat32) then 0 else (vol - DataStart(vol, fat32)) / per)
  }

  /** The first sector of cluster 2. */
  function DataStart(vol: nat, fat32: bool): nat
    requires ClusterSize(vol, fat32) > 0
  {
    Reserved(fat32) + 2 * FatSectorsFor(vol, ClusterSize(vol, fat32), fat32) + (if fat32 then 0 else 32)
  }

  /** What the fields of the formatter's boot sector are read as. */
  lemma FieldsRead(b: seq<Byte>, vol: nat, per: nat, fats: nat, fat32: bool)
    requires BootFields(b, vol, per, fats, fat32) && fats > 0 && vol < 0x1_0000_0000 && Reserved(fat32) + 2 * fats < 0x1_0000_0000
    ensures |b| == 512 && b[13] as int == per && Word16(b, 11) == 512 && Word16(b, 510) == 0xAA55
    ensures DataSectorsOf(b) == U32(vol - (Reserved(fat32) + 2 * fats + (if fat32 then 0 else 32)))
    ensures forall clusters: nat :: (
      ParamsOf(b, 0, clusters) == Params(clusters >= 65525, 0, per, fats, Reserved(fat32), Reserved(fat32) + 2 * fats,
        RootEntries(fat32), Reserved(fat32) + 2 * fats, if fat32 then 0 else 32, if clusters >= 65525 then Word32(b, 44) else 0, Word16(b, 48), clusters))
  {
    hide Word16, Word32;
    assert FatSectorsOf(b) == fats && TotalOf(b) == vol && RootSectorsOf(b) == if fat32 then 0 else 32;
    SignatureWord(b);
  }

  /** A FAT32 volume of any size above the FAT16 limit mounts as what was formatted. */
  lemma MountsAsFat32(b: seq<Byte>, vol: nat)
    requires 4194304 < vol < 0x1_0000_0000
    requires BootFields(b, vol, ClusterSize(vol, true), FatSectorsFor(vol, ClusterSize(vol, true), true), true)
    ensures MountVolume(b, 0) == Mounted(Formatted(vol, true))
  {
    hide Word16, Word32, DataSectorsOf, ParamsOf;
    var per := ClusterSize(vol, true);
    var fats := FatSectorsFor(vol, per, true);
    Quotients32(vol, per, fats);
    FieldsRead(b, vol, per, fats, true);
  }

  lemma SignatureWord(b: seq<Byte>)
    requires |b| == 512 && b[510] == 0x55 && b[511] == 0xAA
    ensures Word16(b, 510) == 0xAA55
  {
  }

  lemma Quotients32(vol: nat, per: nat, fats: nat)
    requires 4194304 < vol < 0x1_0000_0000 && per == ClusterSize(vol, true) && fats == FatSectorsFor(vol, per, true)
    ensures 32 + 2 * fats <= vol && (vol - (32 + 2 * fats)) / per >= 65525
  {
  }

  /** A FAT16 boot sector mounts as what was formatted exactly from 8244 to 4194151
      sectors. Above that it is taken for FAT32; below, it is refused, unless it is so small
      that the count of data sectors wraps around. */
  lemma MountsAsFat16(b: seq<Byte>, vol: nat)
    requires vol <= 4194304
    requires BootFields(b, vol, ClusterSize(vol, false), FatSectorsFor(vol, ClusterSize(vol, false), false), false)
    ensures MountVolume(b, 0) == Mounted(Formatted(vol, false).(infoSector := Word16(b, 48))) <==> 8244 <= vol <= 4194151
    ensures vol > 4194151 || vol < 42 ==> MountVolume(b, 0).Mounted? && MountVolume(b, 0).params.fat32
    ensures 42 <= vol < 8244 ==> MountVolume(b, 0) == Error(-5)
  {
    var per := ClusterSize(vol, false);
    var fats := FatSectorsFor(vol, per, false);
    Quotients16(vol, per, fats);
    var clusters := Clusters16(b, vol, per, fats);
    hide ClusterSize, FatSectorsFor, MountVolume, Word16, Word32, U32, BootFields;
    assert 42 <= vol ==> Formatted(vol, false).clusters == clusters;
  }

  lemma Clusters16(b: seq<Byte>, vol: nat, per: nat, fats: nat) returns (clusters: nat)
    requires per > 0 && fats > 0 && vol < 0x1_0000_0000 && 40 + 2 * fats < 0x1_0000_0000 && BootFields(b, vol, per, fats, false)
    ensures clusters == U32(vol - (40 + 2 * fats)) / per && (40 + 2 * fats <= vol ==> clusters == (vol - (40 + 2 * fats)) / per)
    ensures MountVolume(b, 0) == if clusters < 4085 then Error(-5) else
      Mounted(Params(clusters >= 65525, 0, per, fats, 8, 8 + 2 * fats, 512, 8 + 2 * fats, 32,
                     if clusters >= 65525 then Word32(b, 44) else 0, Word16(b, 48), clusters))
  {
    hide Word16, Word32, DataSectorsOf, ParamsOf, BootFields;
    FieldsRead(b, vol, per, fats, false);
    clusters := U32(vol - (40 + 2 * fats)) / per;
  }

  lemma Quotients16(vol: nat, per: nat, fats: nat)
    requires vol <= 4194304 && per == ClusterSize(vol, false) && fats == FatSectorsFor(vol, per, false)
    ensures 40 + 2 * fats <= vol <==> 42 <= vol
    ensures 42 <= vol ==> ((vol - (40 + 2 * fats)) / per < 4085 <==> vol < 8244) && ((vol - (40 + 2 * fats)) / per >= 65525 <==> vol > 4194151)
    ensures vol < 42 ==> U32(vol - (40 + 2 * fats)) / per >= 65525
  {
    if vol <= 32680 {
      Small16(vol);
    } else {
      Large16(vol, per, fats);
    }
  }

  lemma Small16(vol: nat)
    requires vol <= 32680
    ensures var fats := (vol / 2 + 1) / 256 + 1;
      && (40 + 2 * fats <= vol <==> 42 <= vol) && (vol < 42 ==> U32(vol - (40 + 2 * fats)) / 2 >= 65525)
      && (42 <= vol ==> ((vol - (40 + 2 * fats)) / 2 < 4085 <==> vol < 8244) && (vol - (40 + 2 * fats)) / 2 < 65525)
  {
  }

  lemma Large16(vol: nat, per: nat, fats: nat)
    requires 32680 < vol <= 4194304 && per == ClusterSize(vol, false) && fats == FatSectorsFor(vol, per, false)
    ensures 40 + 2 * fats <= vol && (vol - (40 + 2 * fats)) / per >= 4085
    ensures (vol - (40 + 2 * fats)) / per >= 65525 <==> vol > 4194151
  {
  }

  // ---------- geometry ----------

  /** The FAT has an entry for every data cluster, and at least one more. */
  lemma FatLargeEnough(vol: nat, fat32: bool)
    requires ClusterSize(vol, fat32) > 0
    ensures var p := Formatted(vol, fat32); p.clusters + 2 <= p.fatSectors * PerSector(fat32)
    ensures var p := Formatted(vol, fat32); vol >= DataStart(vol, fat32) ==> p.clusters + 2 < p.fatSectors * PerSector(fat32)
  {
    StartBehind(vol, fat32);
    var per := ClusterSize(vol, fat32);
    FatCovers(vol, per, fat32);
    hide ClusterSize, FatSectorsFor;
    var start := DataStart(vol, fat32);
    if start <= vol {
      Dropped(vol, start, per);
    }
  }

  lemma FatCovers(vol: nat, per: nat, fat32: bool)
    requires per > 0
    ensures vol / per + 1 < FatSectorsFor(vol, per, fat32) * PerSector(fat32) && FatSectorsFor(vol, per, fat32) * PerSector(fat32) >= 128
  {
    var n := vol / per + 1;
    assert fat32 ==> n < (n / 128 + 1) * 128;
    assert !fat32 ==> n < (n / 256 + 1) * 256;
  }

  lemma StartBehind(vol: nat, fat32: bool)
    requires ClusterSize(vol, fat32) > 0
    ensures DataStart(vol, fat32) >= ClusterSize(vol, fat32)
  {
  }

  /** Of a FAT whose entries beyond the data clusters are free, as formatting leaves them,
      the search for a free cluster ends inside the volume exactly if a data cluster is
      free; otherwise it ends at the first entry beyond, whose cluster is not wholly on
      the disk. */
  lemma FullVolume(vol: nat, fat32: bool, t: seq<nat>)
    requires ClusterSize(vol, fat32) > 0 && DataStart(vol, fat32) <= vol && |t| == Formatted(vol, fat32).fatSectors * PerSector(fat32)
    requires Formatted(vol, fat32).clusters > 0 && forall c :: Formatted(vol, fat32).clusters + 2 <= c < |t| ==> t[c] == 0
    ensures var p := Formatted(vol, fat32); var c := FirstBlank(t, p.rootCluster); var limit := p.clusters + 2;
      if Blanks(t, p.rootCluster, limit) != {} then c < limit
      else c == limit < |t| && PlaceAt(DataStart(vol, fat32), p.perCluster, c, p.perCluster - 1) >= vol
  {
    hide ClusterSize, FatSectorsFor, FirstBlank;
    FatLargeEnough(vol, fat32);
    var p, start := Formatted(vol, fat32), DataStart(vol, fat32);
    BlankInside(t, p.rootCluster, p.clusters + 2);
    BlankFacts(t, p.rootCluster);
    assert t[p.clusters + 2] == 0;
    Rebuilt(vol - start, p.perCluster);
  }

  /** Such a volume: the smallest that mounts as FAT16, with all 4085 clusters used. */
  lemma FullSmallVolume(t: seq<nat>)
    requires t == seq(17 * 256, c => if c < 4087 then 0xFFFF else 0)
    ensures |t| == Formatted(8244, false).fatSectors * PerSector(false) && Formatted(8244, false).clusters + 2 == 4087
    ensures FirstBlank(t, 0) == 4087 < |t| && PlaceAt(DataStart(8244, false), 2, 4087, 1) >= 8244
  {
    assert Formatted(8244, false).clusters == 4085 && Formatted(8244, false).rootCluster == 0;
    assert Blanks(t, 0, 4087) == {};
    FullVolume(8244, false, t);
  }

  lemma Dropped(vol: nat, start: nat, per: nat)
    requires per > 0 && start <= vol && start >= per
    ensures (vol - start) / per + 1 <= vol / per
  {
    var q := (vol - start) / per;
    Rebuilt(vol - start, per);
    Distribute(q, 1, per);
    DivLess(vol, q + 1, per);
  }

  /** Different sectors of data clusters have different places, all behind the FATs and the
      root directory and inside the volume. */
  lemma PlacesApart(vol: nat, fat32: bool, c: nat, r: nat, d: nat, q: nat)
    requires ClusterSize(vol, fat32) > 0 && DataStart(vol, fat32) <= vol
    requires var p := Formatted(vol, fat32); 2 <= c < p.clusters + 2 && 2 <= d < p.clusters + 2 && r < p.perCluster && q < p.perCluster
    ensures var p := Formatted(vol, fat32); var start := DataStart(vol, fat32);
      && start <= PlaceAt(start, p.perCluster, c, r) < vol
      && start == p.clusterBegin + p.rootSectors && p.fatBegin + 2 * p.fatSectors <= start
      && (PlaceAt(start, p.perCluster, c, r) == PlaceAt(start, p.perCluster, d, q) ==> c == d && r == q)
  {
    hide ClusterSize, FatSectorsFor;
    var p, start := Formatted(vol, fat32), DataStart(vol, fat32);
    ClusterBefore(c, p.clusters + 2, p.perCluster, r);
    Rebuilt(vol - start, p.perCluster);
    if PlaceAt(start, p.perCluster, c, r) == PlaceAt(start, p.perCluster, d, q) {
      ClusterApart(c, d, p.perCluster, r, q);
    }
  }

  // ---------- writing the disk ----------

  /** `fatfs_erase_sectors`. */
  method EraseSectors(media: seq<seq<Byte>>, lba: nat, count: nat) returns (r: seq<seq<Byte>>)
    requires lba + count <= |media|
    ensures |r| == |media| && forall x :: 0 <= x < |media| ==> r[x] == if lba <= x < lba + count then ZeroSector() else media[x]
  {
    hide ZeroSector;
    r := media;
    for i := 0 to count
      invariant |r| == |media| && forall x :: 0 <= x < |media| ==> r[x] == if lba <= x < lba + i then ZeroSector() else media[x]
    {
      r := r[lba + i := ZeroSector()];
    }
  }

  /** The first sector of an empty FAT: two reserved entries, and on FAT32 the root directory. */
  ghost predicate FatHead(b: seq<Byte>, fat32: bool) {
    && |b| == 512
    && (fat32 ==> Word32(b, 0) == 0x0FFF_FFF8 && Word32(b, 4) == 0xFFFF_FFFF && Word32(b, 8) == 0x0FFF_FFFF && forall i :: 12 <= i < 512 ==> b[i] == 0)
    && (!fat32 ==> Word16(b, 0) == 0xFFF8 && Word16(b, 2) == 0xFFFF && forall i :: 4 <= i < 512 ==> b[i] == 0)
  }

  /** `fatfs_erase_fat`: both copies, but only the first one gets the reserved entries. */
  method EraseFat(media: seq<seq<Byte>>, begin: nat, fats: nat, fat32: bool) returns (r: seq<seq<Byte>>)
    requires begin + 2 * fats <= |media| && fats > 0
    ensures |r| == |media| && FatHead(r[begin], fat32)
    ensures forall x :: 0 <= x < |media| && x != begin ==> r[x] == if begin < x < begin + 2 * fats then ZeroSector() else media[x]
  {
    hide ZeroSector;
    var b := seq(512, i => 0);
    if fat32 {
      b := b[0 := 0xF8][1 := 0xFF][2 := 0xFF][3 := 0x0F];
      b := b[4 := 0xFF][5 := 0xFF][6 := 0xFF][7 := 0xFF];
      b := b[8 := 0xFF][9 := 0xFF][10 := 0xFF][11 := 0x0F];
    } else {
      b := b[0 := 0xF8][1 := 0xFF];
      b := b[2 := 0xFF][3 := 0xFF];
    }
    assert FatHead(b, fat32);
    r := media[begin := b];
    for i := 1 to fats * 2
      invariant |r| == |media| && r[begin] == b
      invariant forall x :: 0 <= x < |media| && x != begin ==> r[x] == if begin < x < begin + i then ZeroSector() else media[x]
    {
      r := r[begin + i := ZeroSector()];
    }
  }

  /** An FSInfo sector from which nothing is known about free clusters. */
  ghost predicate FsInfo(b: seq<Byte>) {
    && |b| == 512 && Word32(b, 0) == 0x4161_5252 && Word32(b, 484) == 0x6141_7272 && Word16(b, 510) == 0xAA55
    && Word32(b, 488) == 0xFFFF_FFFF && Word32(b, 492) == 0xFFFF_FFFF
  }

  /** `fatfs_create_fsinfo_sector`. */
  method CreateFsInfo() returns (b: seq<Byte>)
    ensures FsInfo(b)
  {
    b := seq(512, i => 0);
    b := b[0 := 0x52][1 := 0x52][2 := 0x61][3 := 0x41];
    b := b[484 := 0x72][485 := 0x72][486 := 0x41][487 := 0x61];
    b := b[488 := 0xFF][489 := 0xFF][490 := 0xFF][491 := 0xFF];
    b := b[492 := 0xFF][493 := 0xFF][494 := 0xFF][495 := 0xFF];
    b := b[510 := 0x55][511 := 0xAA];
  }

  predicate IsFat32Size(vol: nat) {
    vol > 4194304
  }

  /** The sectors that the formatter writes: up to the end of the root directory. */
  function Written(vol: nat): nat
    requires ClusterSize(vol, IsFat32Size(vol)) > 0
  {
    DataStart(vol, IsFat32Size(vol)) + if IsFat32Size(vol) then ClusterSize(vol, true) else 0
  }

  /** A disk as the formatter leaves it. */
  ghost predicate IsFormatted(media: seq<seq<Byte>>, vol: nat) {
    var fat32 := IsFat32Size(vol);
    ClusterSize(vol, fat32) > 0 && Written(vol) <= |media| && Whole(media) && 0 < |media|
    && var p := Formatted(vol, fat32);
    && BootFields(media[0], vol, p.perCluster, p.fatSectors, fat32) && p.fatBegin + p.fatSectors <= |media|
    && FatHead(media[p.fatBegin], fat32)
    && (fat32 ==> FsInfo(media[p.infoSector]))
    && (forall x :: p.fatBegin < x < Written(vol) && x < |media| ==> media[x] == ZeroSector())
  }

  /** `fatfs_format`: between what `IsFormatted` names and `Written` no sector changes. */
  method Format(media: seq<seq<Byte>>, vol: nat, name: seq<Byte>) returns (r: seq<seq<Byte>>)
    requires vol < 0x1_0000_0000 && Whole(media) && ClusterSize(vol, IsFat32Size(vol)) > 0 && Written(vol) <= |media|
    ensures |r| == |media| && IsFormatted(r, vol)
    ensures forall x :: 0 < x < |media| && (Written(vol) <= x || (x < Reserved(IsFat32Size(vol)) && !(IsFat32Size(vol) && x == 1))) ==> r[x] == media[x]
  {
    hide ZeroSector, BootFields, FatHead, FsInfo, FatSectorsFor, ClusterSize;
    var fat32 := IsFat32Size(vol);
    var ok, boot, per, fats := CreateBootSector(vol, name, fat32);
    r := media[0 := boot];
    var begin := if fat32 then 32 else 8;
    if fat32 {
      var info := CreateFsInfo();
      r := r[1 := info];
    }
    r := EraseFat(r, begin, fats, fat32);
    if fat32 {
      r := EraseSectors(r, begin + 2 * fats, per);
    } else {
      r := EraseSectors(r, begin + 2 * fats, 32);
    }
    BootLength(boot, vol, per, fats, fat32);
    HeadLength(r[begin], fat32);
    InfoLength(r[1]);
  }

  lemma BootLength(b: seq<Byte>, vol: nat, per: nat, fats: nat, fat32: bool)
    requires BootFields(b, vol, per, fats, fat32)
    ensures |b| == 512
  {
  }

  lemma HeadLength(b: seq<Byte>, fat32: bool)
    requires FatHead(b, fat32)
    ensures |b| == 512
  {
  }

  lemma InfoLength(b: seq<Byte>)
    ensures FsInfo(b) ==> |b| == 512
  {
  }

  // ---------- format, then mount ----------

  /** Mounting reads back what formatting set. */
  method FormatThenMount(media: seq<seq<Byte>>, vol: nat, name: seq<Byte>) returns (r: seq<seq<Byte>>, m: MountResult)
    requires vol < 0x1_0000_0000 && Whole(media) && ClusterSize(vol, IsFat32Size(vol)) > 0 && Written(vol) <= |media|
    ensures |r| == |media| && IsFormatted(r, vol)
    ensures IsFat32Size(vol) ==> m == Mounted(Formatted(vol, true))
    ensures !IsFat32Size(vol) ==>
      ((m.Mounted? && m.params == Formatted(vol, false).(infoSector := m.params.infoSector)) <==> 8244 <= vol <= 4194151)
  {
    r := Format(media, vol, name);
    m := Mount(r);
    MountsFormatted(r, vol);
  }

  lemma MountsFormatted(media: seq<seq<Byte>>, vol: nat)
    requires vol < 0x1_0000_0000 && IsFormatted(media, vol)
    ensures IsFat32Size(vol) ==> Mount(media) == Mounted(Formatted(vol, true))
    ensures var m := Mount(media); !IsFat32Size(vol) ==>
      ((m.Mounted? && m.params == Formatted(vol, false).(infoSector := m.params.infoSector)) <==> 8244 <= vol <= 4194151)
  {
    hide ZeroSector, FatHead, FatSectorsFor, ClusterSize, Formatted, MountVolume, Written;
    var b := media[0];
    NoPartition(b, vol, Formatted(vol, IsFat32Size(vol)).perCluster, Formatted(vol, IsFat32Size(vol)).fatSectors, IsFat32Size(vol));
    ParamsAre(vol, IsFat32Size(vol));
    if IsFat32Size(vol) {
      MountsAsFat32(b, vol);
    } else {
      MountsAsFat16(b, vol);
      MountedInfo(b, vol);
    }
  }

  lemma NoPartition(b: seq<Byte>, vol: nat, per: nat, fats: nat, fat32: bool)
    requires BootFields(b, vol, per, fats, fat32)
    ensures |b| == 512 && b[510] == 0x55 && b[511] == 0xAA && !IsPartition(b[450])
  {
  }

  lemma ParamsAre(vol: nat, fat32: bool)
    requires ClusterSize(vol, fat32) > 0
    ensures var p := Formatted(vol, fat32); p.perCluster == ClusterSize(vol, fat32) && p.fatSectors == FatSectorsFor(vol, p.perCluster, fat32)
  {
  }

  lemma MountedInfo(b: seq<Byte>, vol: nat)
    requires |b| == 512
    ensures MountVolume(b, 0).Mounted? ==> MountVolume(b, 0).params.infoSector == Word16(b, 48)
  {
  }

  // ---------- the empty volume ----------

  /** The FAT of a formatted volume: the reserved entries, the root directory's cluster
      on FAT32, and otherwise free entries. */
  lemma EmptyTable(fat32: bool, sectors: seq<seq<Byte>>, c: nat)
    requires |sectors| > 0 && FatHead(sectors[0], fat32) && Whole(sectors) && forall k :: 0 < k < |sectors| ==> sectors[k] == ZeroSector()
    requires c < |sectors| * PerSector(fat32)
    ensures var t := Table(fat32, sectors);
      if c < 2 || (fat32 && c == 2) then t[c] >= EndMark(fat32) else t[c] == 0
  {
    hide FatHead, Entry, ZeroSector;
    var k, j := c / PerSector(fat32), c % PerSector(fat32);
    assert Table(fat32, sectors)[c] == Entry(fat32, sectors[k], j);
    if k > 0 {
      ZeroEntry(fat32, j);
    } else {
      HeadEntry(fat32, sectors[0], j);
    }
  }

  lemma ZeroEntry(fat32: bool, j: nat)
    requires j < PerSector(fat32)
    ensures Entry(fat32, ZeroSector(), j) == 0
  {
  }

  lemma HeadEntry(fat32: bool, b: seq<Byte>, j: nat)
    requires FatHead(b, fat32) && j < PerSector(fat32)
    ensures if j < 2 || (fat32 && j == 2) then Entry(fat32, b, j) >= EndMark(fat32) else Entry(fat32, b, j) == 0
  {
    hide Word32, Word16;
    if fat32 {
      ZeroWord32(b, 4 * j);
      assert j < 3 ==> j == 0 || j == 1 || j == 2;
    } else {
      ZeroWord16(b, 2 * j);
      assert j < 2 ==> j == 0 || j == 1;
    }
  }

  lemma ZeroWord32(b: seq<Byte>, at: nat)
    requires at + 4 <= |b|
    ensures (forall i :: at <= i < at + 4 ==> b[i] == 0) ==> Word32(b, at) == 0
  {
  }

  lemma ZeroWord16(b: seq<Byte>, at: nat)
    requires at + 2 <= |b|
    ensures (forall i :: at <= i < at + 2 ==> b[i] == 0) ==> Word16(b, at) == 0
  {
  }

  lemma EmptyWf(fat32: bool, t: seq<nat>, limit: nat)
    requires 2 < limit <= |t| && limit < EndMark(fat32)
    requires forall c :: 0 <= c < |t| ==> if c < 2 || (fat32 && c == 2) then t[c] >= EndMark(fat32) else t[c] == 0
    ensures Wf(fat32, t, limit, if fat32 then [[2]] else [])
  {
    if fat32 {
      assert LinkAt(fat32, t, [2], 0);
      var files := [[2]];
      assert 2 in files[0];
      assert NoneLost(fat32, t, files);
    }
  }

  /** A volume of 8244 to 4194151 sectors, or of more than 4194304, is usable once it is
      formatted and mounted: its FAT is a set of chains, that of the root directory on
      FAT32 and none on FAT16. */
  method NewVolume(media: seq<seq<Byte>>, vol: nat, name: seq<Byte>, buffers: nat) returns (v: Volume)
    requires Whole(media) && |media| == vol < INVALID && (8244 <= vol <= 4194151 || vol > 4194304) && buffers > 0
    ensures v.Valid() && v.fat32 == IsFat32Size(vol) && v.perCluster == ClusterSize(vol, v.fat32)
    ensures v.Lba(2) == DataStart(vol, v.fat32) && v.fatBegin == Reserved(v.fat32) && v.rootCluster == if v.fat32 then 2 else 0
    ensures v.fat32 ==> v.infoLba == 1
    ensures IsFormatted(v.media, vol) && v.limit == Formatted(vol, v.fat32).clusters + 2
    ensures Wf(v.fat32, v.Fat(), v.limit, if v.fat32 then [[2]] else [])
  {
    hide ZeroSector, FatHead, BootFields, MountVolume, Mount, Wf, Table, ClusterSize, FatSectorsFor, Volume.Lba;
    var fat32 := IsFat32Size(vol);
    RegionFits(vol, fat32);
    var disk, m := FormatThenMount(media, vol, name);
    var p := m.params;
    UsableSize(vol, fat32);
    v := new Volume(fat32, p.fatBegin, p.fatSectors, p.lbaBegin + p.infoSector, p.clusterBegin, p.rootEntries, p.rootCluster,
                    p.perCluster, p.clusters + 2, disk, buffers);
    EmptyFat(v);
  }

  lemma EmptyFat(v: Volume)
    requires v.Valid() && |v.sectors| > 0 && FatHead(v.sectors[0], v.fat32) && forall k :: 0 < k < |v.sectors| ==> v.sectors[k] == ZeroSector()
    ensures Wf(v.fat32, v.Fat(), v.limit, if v.fat32 then [[2]] else [])
  {
    hide ZeroSector, FatHead, Wf, Table, Volume.Lba, Volume.Geometry;
    v.GeometryFacts();
    var t := v.Fat();
    forall c | 0 <= c < |t|
      ensures if c < 2 || (v.fat32 && c == 2) then t[c] >= EndMark(v.fat32) else t[c] == 0
    {
      EmptyTable(v.fat32, v.sectors, c);
    }
    EmptyWf(v.fat32, t, v.limit);
  }

  lemma RegionFits(vol: nat, fat32: bool)
    requires fat32 == IsFat32Size(vol) && 8244 <= vol < 0x1_0000_0000
    ensures ClusterSize(vol, fat32) > 0 && Written(vol) <= vol
  {
  }

  lemma UsableSize(vol: nat, fat32: bool)
    requires fat32 == IsFat32Size(vol) && (8244 <= vol <= 4194151 || 4194304 < vol < 0x1_0000_0000)
    ensures ClusterSize(vol, fat32) > 0 && DataStart(vol, fat32) <= vol
    ensures var p := Formatted(vol, fat32);
      && 2 < p.clusters + 2 <= p.fatSectors * PerSector(fat32) < LAST
      && p.clusters + 2 < EndMark(fat32) && DataStart(vol, fat32) + p.clusters * p.perCluster <= vol
  {
    var per := ClusterSize(vol, fat32);
    var fats := FatSectorsFor(vol, per, fat32);
    if fat32 {
      Quotients32(vol, per, fats);
    } else {
      Quotients16(vol, per, fats);
    }
    FatLargeEnough(vol, fat32);
    EntryBound(vol, fat32);
    hide ClusterSize, FatSectorsFor;
    var start := DataStart(vol, fat32);
    Rebuilt(vol - start, per);
  }

  lemma EntryBound(vol: nat, fat32: bool)
    requires vol < 0x1_0000_0000 && ClusterSize(vol, fat32) > 0 && (fat32 ==> vol > 4194304)
    ensures FatSectorsFor(vol, ClusterSize(vol, fat32), fat32) * PerSector(fat32) < 0x0800_0100
  {
  }
}
