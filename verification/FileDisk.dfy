/** The sectors of a file on the disk: those of its clusters, in the order of its chain. */
module FileDisk {
  import opened Bytes
  import opened FatTable
  import opened FatChains
  import opened FatVolume
  import FatBuffers
  import opened FileView

  /** The disk address of sector `s` of a file; cluster 2 begins at `base`. */
  ghost function Place(base: nat, per: nat, chain: seq<nat>, s: nat): int
    requires per > 0 && s / per < |chain|
  {
    PlaceAt(base, per, chain[s / per], s % per)
  }

  /** The place of sector `r` of cluster `c`. */
  ghost function PlaceAt(base: nat, per: nat, c: nat, r: nat): int {
    base + (c - 2) * per + r
  }

  ghost predicate Fits(media: seq<seq<Byte>>, base: nat, per: nat, limit: nat, chain: seq<nat>) {
    && per > 0 && Whole(media) && 2 <= limit && base + (limit - 2) * per <= |media|
    && (forall i :: 0 <= i < |chain| ==> 2 <= chain[i] < limit) && NoRepeats(chain)
  }

  // ---------- addresses ----------

  lemma MulMono(a: int, b: int, per: nat)
    requires a <= b
    ensures a * per <= b * per
  {
  }

  /** A sector of an earlier cluster comes before a later cluster. */
  lemma ClusterBefore(c: nat, d: nat, per: nat, r: nat)
    requires 2 <= c < d && r < per
    ensures 0 <= (c - 2) * per + r < (d - 2) * per
  {
    MulMono(0, c - 2, per);
    MulMono(c - 1, d - 2, per);
    assert (c - 1) * per == (c - 2) * per + per;
  }

  lemma ClusterApart(c: nat, d: nat, per: nat, r: nat, q: nat)
    requires 2 <= c && 2 <= d && r < per && q < per && (c - 2) * per + r == (d - 2) * per + q
    ensures c == d && r == q
  {
    if c < d {
      ClusterBefore(c, d, per, r);
    } else if d < c {
      ClusterBefore(d, c, per, q);
    }
  }

  lemma PlaceInside(media: seq<seq<Byte>>, base: nat, per: nat, limit: nat, chain: seq<nat>, s: nat)
    requires Fits(media, base, per, limit, chain) && s < |chain| * per
    ensures s / per < |chain| && base <= Place(base, per, chain, s) < |media|
  {
    DivLess(s, |chain|, per);
    ClusterBefore(chain[s / per], limit, per, s % per);
  }

  /** Different sectors of a file lie in different places. */
  lemma PlaceInjective(media: seq<seq<Byte>>, base: nat, per: nat, limit: nat, chain: seq<nat>, s: nat, r: nat)
    requires Fits(media, base, per, limit, chain) && s / per < |chain| && r / per < |chain|
    requires Place(base, per, chain, s) == Place(base, per, chain, r)
    ensures s == r
  {
    hide PlaceAt;
    IndexApart(base, chain, per, s / per, s % per, r / per, r % per);
    SameQuotient(s, r, per);
  }

  lemma IndexApart(base: nat, chain: seq<nat>, per: nat, i: nat, a: nat, j: nat, b: nat)
    requires NoRepeats(chain) && i < |chain| && j < |chain| && chain[i] >= 2 && chain[j] >= 2
    requires a < per && b < per && PlaceAt(base, per, chain[i], a) == PlaceAt(base, per, chain[j], b)
    ensures i == j && a == b
  {
    ClusterApart(chain[i], chain[j], per, a, b);
  }

  lemma SameQuotient(s: nat, r: nat, per: nat)
    requires per > 0 && s / per == r / per && s % per == r % per
    ensures s == r
  {
    Rebuilt(s, per);
    Rebuilt(r, per);
  }

  lemma Rebuilt(s: nat, per: nat)
    requires per > 0
    ensures s == s / per * per + s % per
  {
  }

  /** Sectors of one cluster lie side by side. */
  lemma RunInCluster(base: nat, per: nat, chain: seq<nat>, s: nat, i: nat)
    requires per > 0 && s / per < |chain| && s % per + i < per
    ensures (s + i) / per == s / per && (s + i) % per == s % per + i
    ensures Place(base, per, chain, s + i) == Place(base, per, chain, s) + i && s + i < |chain| * per
  {
    QuotientKept(s, per, i);
    DivLess(s + i, |chain|, per);
  }

  lemma QuotientKept(s: nat, per: nat, i: nat)
    requires per > 0 && s % per + i < per
    ensures (s + i) / per == s / per && (s + i) % per == s % per + i
  {
    var q, r := s / per, s % per;
    assert s + i == q * per + (r + i);
    QuotientUnique(s + i, per, q, r + i);
  }

  lemma QuotientUnique(a: nat, per: nat, q: nat, r: nat)
    requires per > 0 && r < per && a == q * per + r
    ensures a / per == q && a % per == r
  {
    ClusterApart(a / per + 2, q + 2, per, a % per, r);
  }

  // ---------- the file's sectors ----------

  ghost function SectorAt(media: seq<seq<Byte>>, base: nat, per: nat, chain: seq<nat>, s: nat): seq<Byte> {
    if per > 0 && s / per < |chain| && 0 <= Place(base, per, chain, s) < |media| then media[Place(base, per, chain, s)] else []
  }

  ghost function Disk(media: seq<seq<Byte>>, base: nat, per: nat, chain: seq<nat>): (d: seq<seq<Byte>>)
    ensures |d| == |chain| * per
  {
    seq(|chain| * per, s requires s >= 0 => SectorAt(media, base, per, chain, s))
  }

  lemma DiskAt(media: seq<seq<Byte>>, base: nat, per: nat, limit: nat, chain: seq<nat>, s: nat)
    requires Fits(media, base, per, limit, chain) && s < |chain| * per
    ensures s / per < |chain| && base <= Place(base, per, chain, s) < |media|
    ensures var d := Disk(media, base, per, chain); |d[s]| == 512 && d[s] == media[Place(base, per, chain, s)]
  {
    PlaceInside(media, base, per, limit, chain, s);
  }

  lemma DiskWhole(media: seq<seq<Byte>>, base: nat, per: nat, limit: nat, chain: seq<nat>)
    requires Fits(media, base, per, limit, chain)
    ensures Whole(Disk(media, base, per, chain))
  {
    hide Fits, Disk;
    forall s | 0 <= s < |chain| * per
      ensures |Disk(media, base, per, chain)[s]| == 512
    {
      DiskAt(media, base, per, limit, chain, s);
    }
  }

  /** Changes before the first cluster do not show. */
  lemma DiskKept(media: seq<seq<Byte>>, media': seq<seq<Byte>>, base: nat, per: nat, limit: nat, chain: seq<nat>)
    requires Fits(media, base, per, limit, chain) && Fits(media', base, per, limit, chain)
    requires |media'| == |media| && forall x :: base <= x < |media| ==> media'[x] == media[x]
    ensures Disk(media', base, per, chain) == Disk(media, base, per, chain)
  {
    hide Fits, Disk;
    var d, d' := Disk(media, base, per, chain), Disk(media', base, per, chain);
    forall s | 0 <= s < |d|
      ensures d'[s] == d[s]
    {
      DiskAt(media, base, per, limit, chain, s);
      DiskAt(media', base, per, limit, chain, s);
    }
  }

  /** A run of sectors written inside one cluster. */
  lemma DiskWritten(media: seq<seq<Byte>>, media': seq<seq<Byte>>, base: nat, per: nat, limit: nat, chain: seq<nat>,
                    s: nat, n: nat, bytes: seq<Byte>)
    requires Fits(media, base, per, limit, chain) && Fits(media', base, per, limit, chain) && |media'| == |media|
    requires per > 0 && s / per < |chain| && 1 <= n && s % per + n <= per && |bytes| == 512 * n
    requires var lba := Place(base, per, chain, s);
      && 0 <= lba && lba + n <= |media|
      && (forall x :: 0 <= x < |media| && !(lba <= x < lba + n) ==> media'[x] == media[x])
      && (forall i :: 0 <= i < n ==> media'[lba + i] == bytes[512 * i..512 * i + 512])
    ensures Replaced(Disk(media, base, per, chain), Disk(media', base, per, chain), s, n, bytes)
  {
    hide Fits, Disk, Place;
    var d, d' := Disk(media, base, per, chain), Disk(media', base, per, chain);
    RunInCluster(base, per, chain, s, n - 1);
    forall i | 0 <= i < |d|
      ensures d'[i] == if s <= i < s + n then bytes[512 * (i - s)..512 * (i - s) + 512] else d[i]
    {
      DiskAt(media, base, per, limit, chain, i);
      DiskAt(media', base, per, limit, chain, i);
      if s <= i < s + n {
        RunInCluster(base, per, chain, s, i - s);
        assert media'[Place(base, per, chain, s) + (i - s)] == bytes[512 * (i - s)..512 * (i - s) + 512];
      } else {
        NotInRun(media, base, per, limit, chain, s, n, i);
      }
    }
  }

  /** A run of sectors read inside one cluster. */
  lemma DiskRead(media: seq<seq<Byte>>, base: nat, per: nat, limit: nat, chain: seq<nat>, s: nat, n: nat, data: seq<Byte>)
    requires Fits(media, base, per, limit, chain)
    requires per > 0 && s / per < |chain| && 1 <= n && s % per + n <= per && |data| == 512 * n
    requires var lba := Place(base, per, chain, s);
      && 0 <= lba && lba + n <= |media|
      && forall k :: 0 <= k < |data| ==> k % 512 < |media[lba + k / 512]| && data[k] == media[lba + k / 512][k % 512]
    ensures ReadFrom(Disk(media, base, per, chain), s, n, data)
  {
    hide Fits, Disk, Place;
    RunInCluster(base, per, chain, s, n - 1);
    var d := Disk(media, base, per, chain);
    forall k | 0 <= k < |data|
      ensures k % 512 < |d[s + k / 512]| && data[k] == d[s + k / 512][k % 512]
    {
      RunInCluster(base, per, chain, s, k / 512);
      DiskAt(media, base, per, limit, chain, s + k / 512);
    }
  }

  /** A run inside one cluster stays on the disk. */
  lemma RunInside(media: seq<seq<Byte>>, base: nat, per: nat, limit: nat, chain: seq<nat>, s: nat, n: nat)
    requires per > 0 && Fits(media, base, per, limit, chain) && s / per < |chain| && 1 <= n && s % per + n <= per
    ensures base <= Place(base, per, chain, s) && Place(base, per, chain, s) + n <= |media|
  {
    hide Fits, Place;
    RunInCluster(base, per, chain, s, n - 1);
    PlaceInside(media, base, per, limit, chain, s + (n - 1));
    RunInCluster(base, per, chain, s, 0);
    PlaceInside(media, base, per, limit, chain, s);
  }

  lemma NotInRun(media: seq<seq<Byte>>, base: nat, per: nat, limit: nat, chain: seq<nat>, s: nat, n: nat, i: nat)
    requires Fits(media, base, per, limit, chain)
    requires s / per < |chain| && s % per + n <= per && i / per < |chain| && !(s <= i < s + n)
    ensures var lba := Place(base, per, chain, s); !(lba <= Place(base, per, chain, i) < lba + n)
  {
    var at := Place(base, per, chain, i) - Place(base, per, chain, s);
    if 0 <= at < n {
      RunInCluster(base, per, chain, s, at);
      PlaceInjective(media, base, per, limit, chain, s + at, i);
    }
  }

  lemma Distribute(a: nat, b: nat, per: nat)
    ensures (a + b) * per == a * per + b * per
  {
  }

  lemma PlaceShifted(base: nat, per: nat, chain: seq<nat>, more: seq<nat>, s: nat, t: nat)
    requires per > 0 && s / per < |more| && t / per == s / per + |chain| && t % per == s % per
    ensures Place(base, per, chain + more, t) == Place(base, per, more, s)
  {
    hide PlaceAt;
  }

  /** A longer chain: the old sectors, then the new ones. */
  lemma DiskGrown(media: seq<seq<Byte>>, base: nat, per: nat, limit: nat, chain: seq<nat>, more: seq<nat>)
    requires Fits(media, base, per, limit, chain) && Fits(media, base, per, limit, more) && Fits(media, base, per, limit, chain + more)
    ensures Disk(media, base, per, chain + more) == Disk(media, base, per, chain) + Disk(media, base, per, more)
  {
    hide Fits, Disk, PlaceAt;
    var d, e := Disk(media, base, per, chain), Disk(media, base, per, more);
    var all := Disk(media, base, per, chain + more);
    var m := |chain| * per;
    Distribute(|chain|, |more|, per);
    forall s | 0 <= s < |all|
      ensures all[s] == if s < m then d[s] else e[s - m]
    {
      DiskAt(media, base, per, limit, chain + more, s);
      if s >= m {
        DiskAt(media, base, per, limit, more, s - m);
        ShiftQuotient(s - m, per, |chain|);
        PlaceShifted(base, per, chain, more, s - m, s);
      } else {
        DiskAt(media, base, per, limit, chain, s);
      }
    }
  }

  lemma ShiftQuotient(s: nat, per: nat, n: nat)
    requires per > 0
    ensures (s + n * per) / per == s / per + n && (s + n * per) % per == s % per
  {
    assert s + n * per == (s / per + n) * per + s % per;
    QuotientUnique(s + n * per, per, s / per + n, s % per);
  }

  /** Changes in a cluster that is not the file's do not show. */
  lemma DiskOutside(media: seq<seq<Byte>>, media': seq<seq<Byte>>, base: nat, per: nat, limit: nat, chain: seq<nat>, c: nat)
    requires Fits(media, base, per, limit, chain) && Fits(media', base, per, limit, chain) && |media'| == |media|
    requires 2 <= c && c !in chain
    requires var at := PlaceAt(base, per, c, 0); forall x :: 0 <= x < |media| && !(at <= x < at + per) ==> media'[x] == media[x]
    ensures Disk(media', base, per, chain) == Disk(media, base, per, chain)
  {
    hide Fits, Disk;
    var d, d' := Disk(media, base, per, chain), Disk(media', base, per, chain);
    forall s | 0 <= s < |d|
      ensures d'[s] == d[s]
    {
      DiskAt(media, base, per, limit, chain, s);
      DiskAt(media', base, per, limit, chain, s);
      OtherCluster(media, base, per, limit, chain, c, s);
    }
  }

  lemma OtherCluster(media: seq<seq<Byte>>, base: nat, per: nat, limit: nat, chain: seq<nat>, c: nat, s: nat)
    requires Fits(media, base, per, limit, chain) && s / per < |chain| && 2 <= c && c !in chain
    ensures var at := PlaceAt(base, per, c, 0); !(at <= Place(base, per, chain, s) < at + per)
  {
    var r := Place(base, per, chain, s) - PlaceAt(base, per, c, 0);
    if 0 <= r < per {
      ClusterApart(chain[s / per], c, per, s % per, r);
    }
  }

  /** The sectors of one cluster. */
  lemma DiskOfOne(media: seq<seq<Byte>>, base: nat, per: nat, limit: nat, c: nat, s: nat)
    requires Fits(media, base, per, limit, [c]) && s < per
    ensures var at := PlaceAt(base, per, c, 0);
      |Disk(media, base, per, [c])| == per && 0 <= at && at + s < |media| && Disk(media, base, per, [c])[s] == media[at + s]
  {
    hide Disk, Fits;
    QuotientUnique(s, per, 0, s);
    OneCluster(per);
    DiskAt(media, base, per, limit, [c], s);
  }

  lemma OneCluster(per: nat)
    ensures 1 * per == per
  {
  }

  // ---------- what is not the file's ----------

  /** The FAT, the disk and the clusters of one file. */
  datatype State = State(fat: seq<nat>, media: seq<seq<Byte>>, chain: seq<nat>)

  ghost predicate SameCluster(base: int, per: nat, media: seq<seq<Byte>>, media': seq<seq<Byte>>, c: nat) {
    forall x :: 0 <= x < |media| && x < |media'| && base + (c - 2) * per <= x < base + (c - 2) * per + per ==> media'[x] == media[x]
  }

  /** A cluster that is used, and not by the file. */
  ghost predicate Foreign(limit: nat, a: State, c: nat) {
    2 <= c < limit && c < |a.fat| && a.fat[c] != 0 && c !in a.chain
  }

  /** From `a` to `b` every used cluster that is not the file's kept its FAT entry and
      its sectors, and did not become the file's. */
  ghost predicate Apart(base: int, per: nat, limit: nat, a: State, b: State) {
    && |b.fat| == |a.fat| && |b.media| == |a.media|
    && forall c: nat {:trigger Foreign(limit, a, c)} :: Foreign(limit, a, c) ==>
         b.fat[c] == a.fat[c] && c !in b.chain && SameCluster(base, per, a.media, b.media, c)
  }

  lemma ApartSelf(base: int, per: nat, limit: nat, a: State)
    ensures Apart(base, per, limit, a, a)
  {
  }

  lemma ApartTrans(base: int, per: nat, limit: nat, a: State, b: State, d: State)
    requires Apart(base, per, limit, a, b) && Apart(base, per, limit, b, d)
    ensures Apart(base, per, limit, a, d)
  {
    hide SameCluster;
    forall c: nat | Foreign(limit, a, c)
      ensures d.fat[c] == a.fat[c] && c !in d.chain && SameCluster(base, per, a.media, d.media, c)
    {
      assert Foreign(limit, b, c);
      SameClusterTrans(base, per, a.media, b.media, d.media, c);
    }
  }

  lemma SameClusterTrans(base: int, per: nat, m: seq<seq<Byte>>, m': seq<seq<Byte>>, m'': seq<seq<Byte>>, c: nat)
    requires |m'| == |m| && SameCluster(base, per, m, m', c) && SameCluster(base, per, m', m'', c)
    ensures SameCluster(base, per, m, m'', c)
  {
  }

  /** Changes before the first cluster. */
  lemma ApartFront(base: nat, per: nat, limit: nat, a: State, media: seq<seq<Byte>>)
    requires |media| == |a.media| && forall x :: base <= x < |media| ==> media[x] == a.media[x]
    ensures Apart(base, per, limit, a, a.(media := media))
  {
    forall c: nat | Foreign(limit, a, c)
      ensures SameCluster(base, per, a.media, media, c)
    {
      MulMono(0, c - 2, per);
    }
  }

  /** The file's chain grew. */
  lemma ApartGrown(base: int, per: nat, limit: nat, a: State, fat32: bool, u: seq<nat>, from: nat, more: seq<nat>)
    requires |a.chain| > 0 && Extended(fat32, a.fat, u, from, a.chain[|a.chain| - 1], more)
    ensures Apart(base, per, limit, a, State(u, a.media, a.chain + more))
  {
    hide FirstBlanks;
    var last := a.chain[|a.chain| - 1];
    ExtensionFacts(fat32, a.fat, u, from, last, more);
    forall c: nat | Foreign(limit, a, c)
      ensures u[c] == a.fat[c] && c !in a.chain + more
    {
      NotTaken(a.fat, from, more, c);
    }
  }

  lemma NotTaken(t: seq<nat>, from: nat, more: seq<nat>, c: nat)
    requires FirstBlanks(t, from, more) && c < |t| && t[c] != 0
    ensures c !in more
  {
  }

  /** A run of sectors was written inside one of the file's clusters. */
  lemma ApartWritten(base: nat, per: nat, limit: nat, a: State, media: seq<seq<Byte>>, s: nat, n: nat)
    requires Fits(a.media, base, per, limit, a.chain) && s / per < |a.chain| && s % per + n <= per && |media| == |a.media|
    requires var lba := Place(base, per, a.chain, s); forall x :: 0 <= x < |media| && !(lba <= x < lba + n) ==> media[x] == a.media[x]
    ensures Apart(base, per, limit, a, a.(media := media))
  {
    var d := a.chain[s / per];
    forall c: nat | Foreign(limit, a, c)
      ensures SameCluster(base, per, a.media, media, c)
    {
      forall x | base + (c - 2) * per <= x < base + (c - 2) * per + per && 0 <= x < |media|
        ensures media[x] == a.media[x]
      {
        var lba := Place(base, per, a.chain, s);
        if lba <= x < lba + n {
          ClusterApart(c, d, per, x - (base + (c - 2) * per), s % per + (x - lba));
        }
      }
    }
  }

  /** One of the file's clusters was overwritten. */
  lemma ApartErased(base: nat, per: nat, limit: nat, mark: State, a: State, media: seq<seq<Byte>>, c: nat)
    requires Apart(base, per, limit, mark, a) && c in a.chain && c >= 2 && |media| == |a.media|
    requires var lba := base + (c - 2) * per; forall x :: 0 <= x < |media| && !(lba <= x < lba + per) ==> media[x] == a.media[x]
    ensures Apart(base, per, limit, mark, a.(media := media))
  {
    forall d: nat | Foreign(limit, a, d)
      ensures SameCluster(base, per, a.media, media, d)
    {
      forall x | base + (d - 2) * per <= x < base + (d - 2) * per + per && 0 <= x < |media|
        ensures media[x] == a.media[x]
      {
        var lba := base + (c - 2) * per;
        if lba <= x < lba + per {
          ClusterApart(c, d, per, x - lba, x - (base + (d - 2) * per));
        }
      }
    }
    ApartTrans(base, per, limit, mark, a, a.(media := media));
  }

  /** Another file's chain is still a chain, of the same sectors. */
  lemma OtherFileKept(fat32: bool, base: nat, per: nat, limit: nat, a: State, b: State, other: seq<nat>)
    requires Apart(base, per, limit, a, b) && IsChain(fat32, a.fat, limit, other) && Disjoint(other, a.chain)
    requires Fits(a.media, base, per, limit, other) && Fits(b.media, base, per, limit, other)
    ensures IsChain(fat32, b.fat, limit, other) && Disjoint(other, b.chain)
    ensures Disk(b.media, base, per, other) == Disk(a.media, base, per, other)
  {
    hide Fits, Disk, IsChain, Place, SameCluster;
    forall i | 0 <= i < |other|
      ensures other[i] < |a.fat| && Foreign(limit, a, other[i])
    {
      ChainForeign(fat32, limit, a, other, i);
    }
    ChainKept(fat32, a.fat, b.fat, limit, other);
    var d, d' := Disk(a.media, base, per, other), Disk(b.media, base, per, other);
    forall s | 0 <= s < |d|
      ensures d'[s] == d[s]
    {
      DiskAt(a.media, base, per, limit, other, s);
      DiskAt(b.media, base, per, limit, other, s);
      assert Foreign(limit, a, other[s / per]);
      SamePlace(base, per, a.media, b.media, other, s);
    }
  }

  lemma ChainForeign(fat32: bool, limit: nat, a: State, other: seq<nat>, i: nat)
    requires IsChain(fat32, a.fat, limit, other) && Disjoint(other, a.chain) && i < |other|
    ensures other[i] < |a.fat| && Foreign(limit, a, other[i])
  {
    ChainUsed(fat32, a.fat, limit, other, i);
  }

  lemma SamePlace(base: nat, per: nat, media: seq<seq<Byte>>, media': seq<seq<Byte>>, chain: seq<nat>, s: nat)
    requires per > 0 && s / per < |chain| && SameCluster(base, per, media, media', chain[s / per])
    requires 0 <= Place(base, per, chain, s) < |media| == |media'|
    ensures media'[Place(base, per, chain, s)] == media[Place(base, per, chain, s)]
  {
  }

  // ---------- on a volume ----------

  /** A chain has no more clusters than the volume. */
  lemma ChainShort(limit: nat, ch: seq<nat>)
    requires NoRepeats(ch) && 2 <= limit && forall i :: 0 <= i < |ch| ==> 2 <= ch[i] < limit
    ensures |ch| <= limit - 2
  {
    DistinctElements(ch);
    var all := seq(limit - 2, i => i + 2);
    forall c | c in Elements(ch)
      ensures c in all
    {
      assert all[c - 2] == c;
    }
    FewElements(Elements(ch), all);
  }

  lemma ChainFits(v: Volume, chain: seq<nat>)
    requires v.Valid() && IsChain(v.fat32, v.Fat(), v.limit, chain)
    ensures v.Lba(2) >= 0 && v.perCluster > 0 && Fits(v.media, v.Lba(2), v.perCluster, v.limit, chain)
    ensures |chain| * v.perCluster < NONE && |chain| < NONE
  {
    hide FatBuffers.BuffersOk, FatBuffers.DiskOk;
    ChainShort(v.limit, chain);
    MulMono(|chain|, v.limit - 2, v.perCluster);
  }

  /** `fatfs_lba_of_cluster` and the sector in the cluster lead to the sector's place. */
  lemma LbaIsPlace(v: Volume, chain: seq<nat>, offset: nat)
    requires v.Lba(2) >= 0 && v.perCluster > 0 && offset / v.perCluster < |chain|
    ensures var idx := offset / v.perCluster;
      v.Lba(chain[idx]) + (offset - idx * v.perCluster) == Place(v.Lba(2), v.perCluster, chain, offset)
    ensures offset - offset / v.perCluster * v.perCluster == offset % v.perCluster
  {
    hide Volume.Lba;
    v.LbaFrom(chain[offset / v.perCluster]);
    Rebuilt(offset, v.perCluster);
  }

  /** What is behind the FAT did not change, so the file's sectors did not. */
  lemma SameDisk(v: Volume, was: seq<seq<Byte>>, chain: seq<nat>)
    requires v.Valid() && IsChain(v.fat32, v.Fat(), v.limit, chain) && v.DataKept(was)
    requires v.Lba(2) >= 0 && Fits(was, v.Lba(2), v.perCluster, v.limit, chain)
    ensures Disk(v.media, v.Lba(2), v.perCluster, chain) == Disk(was, v.Lba(2), v.perCluster, chain)
  {
    hide FatBuffers.Holds, IsChain, Fits, Disk;
    ChainFits(v, chain);
    v.GeometryFacts();
    DiskKept(was, v.media, v.Lba(2), v.perCluster, v.limit, chain);
  }

  /** The file's sectors after its chain grew: the old ones and those of `more`. */
  lemma GrownDisk(v: Volume, was: seq<seq<Byte>>, ch: seq<nat>, more: seq<nat>) returns (extra: seq<seq<Byte>>)
    requires v.Valid() && IsChain(v.fat32, v.Fat(), v.limit, ch + more) && v.DataKept(was) && v.Lba(2) >= 0
    requires Fits(was, v.Lba(2), v.perCluster, v.limit, ch)
    requires NoRepeats(more) && forall i :: 0 <= i < |more| ==> 2 <= more[i] < v.limit
    ensures Disk(v.media, v.Lba(2), v.perCluster, ch + more) == Disk(was, v.Lba(2), v.perCluster, ch) + extra
    ensures Whole(extra) && extra == Disk(v.media, v.Lba(2), v.perCluster, more)
  {
    hide FatBuffers.Holds, IsChain, Disk, Volume.Lba, Volume.Geometry, Place, Whole, NoRepeats;
    ChainFits(v, ch + more);
    v.GeometryFacts();
    var base, per := v.Lba(2), v.perCluster;
    extra := Disk(v.media, base, per, more);
    assert Fits(v.media, base, per, v.limit, ch);
    DiskKept(was, v.media, base, per, v.limit, ch);
    assert Fits(v.media, base, per, v.limit, more);
    DiskGrown(v.media, base, per, v.limit, ch, more);
    DiskWhole(v.media, base, per, v.limit, more);
  }

  /** Only the FAT's buffers moved. */
  lemma ApartMeta(v: Volume, was: seq<seq<Byte>>, mark: State, ch: seq<nat>)
    requires v.Valid() && v.DataKept(was) && Apart(v.Lba(2), v.perCluster, v.limit, mark, State(v.Fat(), was, ch))
    ensures Apart(v.Lba(2), v.perCluster, v.limit, mark, State(v.Fat(), v.media, ch))
  {
    hide FatBuffers.Holds, Apart, Volume.Lba, Volume.Geometry, Table;
    v.GeometryFacts();
    var a := State(v.Fat(), was, ch);
    ApartFront(v.Lba(2), v.perCluster, v.limit, a, v.media);
    ApartTrans(v.Lba(2), v.perCluster, v.limit, mark, a, a.(media := v.media));
  }

  /** The chain grew, and nothing behind the FAT changed. */
  lemma ApartGrow(v: Volume, was: seq<seq<Byte>>, mark: State, t: seq<nat>, ch: seq<nat>, more: seq<nat>)
    requires v.Valid() && v.DataKept(was) && |ch| > 0 && Extended(v.fat32, t, v.Fat(), v.rootCluster, ch[|ch| - 1], more)
    requires Apart(v.Lba(2), v.perCluster, v.limit, mark, State(t, was, ch))
    ensures Apart(v.Lba(2), v.perCluster, v.limit, mark, State(v.Fat(), v.media, ch + more))
  {
    hide FatBuffers.Holds, Apart, Volume.Lba, Volume.Geometry, Table, Extended;
    var base, per, limit := v.Lba(2), v.perCluster, v.limit;
    ApartGrown(base, per, limit, State(t, was, ch), v.fat32, v.Fat(), v.rootCluster, more);
    ApartTrans(base, per, limit, mark, State(t, was, ch), State(v.Fat(), was, ch + more));
    ApartMeta(v, was, mark, ch + more);
  }
}
