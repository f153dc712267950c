/** The sector buffers of the FAT: what they may hold, and what each buffer step does
    to the disk and to the FAT as its users see it. */
module FatBuffers {
  import opened Bytes
  import opened FatTable

  datatype Buffer = Buffer(address: nat, dirty: bool, data: seq<Byte>)

  /** The buffered sector, or `lba` of the volume information sector, which is only
      held while it is being updated. A FAT sector is buffered as its users see it; a
      clean buffer equals the disk; only FAT sectors are dirty. */
  ghost predicate BufferOk(b: Buffer, media: seq<seq<Byte>>, sectors: seq<seq<Byte>>, begin: nat, info: nat) {
    && |b.data| == 512
    && (b.address == INVALID ==> !b.dirty)
    && (b.address != INVALID ==>
          && (begin <= b.address < begin + |sectors| || (b.address == info && !b.dirty))
          && (begin <= b.address < begin + |sectors| ==> b.data == sectors[b.address - begin])
          && (!b.dirty ==> b.address < |media| && b.data == media[b.address]))
  }

  ghost predicate BuffersOk(buffers: seq<Buffer>, media: seq<seq<Byte>>, sectors: seq<seq<Byte>>, begin: nat, info: nat) {
    && |buffers| > 0
    && (forall i :: 0 <= i < |buffers| ==> BufferOk(buffers[i], media, sectors, begin, info))
    && (forall i, j :: 0 <= i < j < |buffers| && buffers[i].address != INVALID ==> buffers[i].address != buffers[j].address)
  }

  ghost predicate HeldDirty(buffers: seq<Buffer>, lba: nat) {
    exists i :: 0 <= i < |buffers| && buffers[i].dirty && buffers[i].address == lba
  }

  /** The disk holds the FAT except where a dirty buffer does. */
  ghost predicate DiskOk(buffers: seq<Buffer>, media: seq<seq<Byte>>, sectors: seq<seq<Byte>>, begin: nat)
    requires begin + |sectors| <= |media|
  {
    forall k :: 0 <= k < |sectors| ==> media[begin + k] == sectors[k] || HeldDirty(buffers, begin + k)
  }

  /** Where the FAT and the volume information sector lie on the disk. */
  ghost predicate Layout(media: seq<seq<Byte>>, sectors: seq<seq<Byte>>, begin: nat, info: nat) {
    && Whole(media) && Whole(sectors) && begin + |sectors| <= |media| < INVALID
    && info < |media| && !(begin <= info < begin + |sectors|)
  }

  /** The buffers and the disk together hold the FAT `sectors`. */
  ghost predicate Holds(buffers: seq<Buffer>, media: seq<seq<Byte>>, sectors: seq<seq<Byte>>, begin: nat, info: nat) {
    && Layout(media, sectors, begin, info)
    && BuffersOk(buffers, media, sectors, begin, info) && DiskOk(buffers, media, sectors, begin)
  }

  /** Apart from FAT sectors, the disks agree. */
  ghost predicate SameOutside(was: seq<seq<Byte>>, media: seq<seq<Byte>>, begin: nat, n: nat) {
    |media| == |was| && forall x :: 0 <= x < |was| && !(begin <= x < begin + n) ==> media[x] == was[x]
  }

  /** Once no buffer is dirty, the disk holds the FAT. */
  lemma CleanDisk(buffers: seq<Buffer>, media: seq<seq<Byte>>, sectors: seq<seq<Byte>>, begin: nat, info: nat)
    requires Holds(buffers, media, sectors, begin, info) && forall i :: 0 <= i < |buffers| ==> !buffers[i].dirty
    ensures begin + |sectors| <= |media| && media[begin..begin + |sectors|] == sectors
  {
  }

  /** Writing a dirty buffer to its sector. */
  lemma WrittenBack(buffers: seq<Buffer>, media: seq<seq<Byte>>, sectors: seq<seq<Byte>>, begin: nat, info: nat, i: nat)
    requires Holds(buffers, media, sectors, begin, info) && i < |buffers| && buffers[i].dirty
    ensures begin <= buffers[i].address < begin + |sectors| <= |media|
    ensures var media' := media[buffers[i].address := buffers[i].data];
      && Holds(buffers[i := buffers[i].(dirty := false)], media', sectors, begin, info)
      && SameOutside(media, media', begin, |sectors|)
  {
    var b := buffers[i];
    assert BufferOk(b, media, sectors, begin, info);
    var media', buffers' := media[b.address := b.data], buffers[i := b.(dirty := false)];
    forall k | 0 <= k < |sectors|
      ensures media'[begin + k] == sectors[k] || HeldDirty(buffers', begin + k)
    {
      if begin + k != b.address && media[begin + k] != sectors[k] {
        var j :| 0 <= j < |buffers| && buffers[j].dirty && buffers[j].address == begin + k;
        assert buffers'[j] == buffers[j];
      }
    }
    forall j | 0 <= j < |buffers'|
      ensures BufferOk(buffers'[j], media', sectors, begin, info)
    {
      assert BufferOk(buffers[j], media, sectors, begin, info);
    }
  }

  /** The oldest buffer moves to the front of the list. */
  lemma Rotated(buffers: seq<Buffer>, media: seq<seq<Byte>>, sectors: seq<seq<Byte>>, begin: nat, info: nat)
    requires Holds(buffers, media, sectors, begin, info)
    ensures var last := |buffers| - 1; Holds([buffers[last]] + buffers[..last], media, sectors, begin, info)
  {
    var last := |buffers| - 1;
    var buffers' := [buffers[last]] + buffers[..last];
    forall k | 0 <= k < |sectors|
      ensures media[begin + k] == sectors[k] || HeldDirty(buffers', begin + k)
    {
      if media[begin + k] != sectors[k] {
        var j :| 0 <= j < |buffers| && buffers[j].dirty && buffers[j].address == begin + k;
        assert buffers'[if j == last then 0 else j + 1] == buffers[j];
      }
    }
    assert forall j :: 0 <= j < |buffers'| ==> buffers'[j] == if j == 0 then buffers[last] else buffers[j - 1];
    assert forall j :: 0 <= j < |buffers'| ==> BufferOk(buffers'[j], media, sectors, begin, info);
  }

  /** A clean buffer is given another sector, which no buffer holds. */
  lemma Loaded(buffers: seq<Buffer>, media: seq<seq<Byte>>, sectors: seq<seq<Byte>>, begin: nat, info: nat, lba: nat)
    requires Holds(buffers, media, sectors, begin, info) && !buffers[0].dirty
    requires lba == info || begin <= lba < begin + |sectors|
    requires forall i :: 0 <= i < |buffers| ==> buffers[i].address != lba
    ensures Holds(buffers[0 := Buffer(lba, false, media[lba])], media, sectors, begin, info)
  {
    var b := Buffer(lba, false, media[lba]);
    var buffers' := buffers[0 := b];
    assert media[lba] in media;
    assert BufferOk(b, media, sectors, begin, info) by {
      if begin <= lba < begin + |sectors| {
        assert media[begin + (lba - begin)] == sectors[lba - begin];
      }
    }
    forall k | 0 <= k < |sectors|
      ensures media[begin + k] == sectors[k] || HeldDirty(buffers', begin + k)
    {
      if media[begin + k] != sectors[k] {
        var j :| 0 <= j < |buffers| && buffers[j].dirty && buffers[j].address == begin + k;
        assert buffers'[j] == buffers[j];
      }
    }
  }

  /** A store into a buffered FAT sector marks it dirty and changes the FAT. */
  lemma Touched(buffers: seq<Buffer>, media: seq<seq<Byte>>, sectors: seq<seq<Byte>>, begin: nat, info: nat, i: nat, data: seq<Byte>)
    requires Holds(buffers, media, sectors, begin, info) && i < |buffers| && |data| == 512
    requires begin <= buffers[i].address < begin + |sectors|
    ensures Holds(buffers[i := buffers[i].(dirty := true, data := data)], media, sectors[buffers[i].address - begin := data], begin, info)
  {
    var b, k := buffers[i].(dirty := true, data := data), buffers[i].address - begin;
    var buffers', sectors' := buffers[i := b], sectors[k := data];
    forall j | 0 <= j < |buffers'|
      ensures BufferOk(buffers'[j], media, sectors', begin, info)
    {
      assert BufferOk(buffers[j], media, sectors, begin, info);
    }
    forall m | 0 <= m < |sectors'|
      ensures media[begin + m] == sectors'[m] || HeldDirty(buffers', begin + m)
    {
      assert buffers'[i] == b;
      if m != k && media[begin + m] != sectors[m] {
        var j :| 0 <= j < |buffers| && buffers[j].dirty && buffers[j].address == begin + m;
        assert buffers'[j] == buffers[j];
      }
    }
  }

  /** The volume information sector is written through and its buffer given up. */
  lemma InfoWritten(buffers: seq<Buffer>, media: seq<seq<Byte>>, sectors: seq<seq<Byte>>, begin: nat, info: nat, i: nat, data: seq<Byte>)
    requires Holds(buffers, media, sectors, begin, info) && i < |buffers| && |data| == 512 && buffers[i].address == info
    ensures Holds(buffers[i := Buffer(INVALID, false, data)], media[info := data], sectors, begin, info)
  {
    var buffers', media' := buffers[i := Buffer(INVALID, false, data)], media[info := data];
    forall j | 0 <= j < |buffers'|
      ensures BufferOk(buffers'[j], media', sectors, begin, info)
    {
      assert BufferOk(buffers[j], media, sectors, begin, info);
    }
    forall k | 0 <= k < |sectors|
      ensures media'[begin + k] == sectors[k] || HeldDirty(buffers', begin + k)
    {
      if media[begin + k] != sectors[k] {
        var j :| 0 <= j < |buffers| && buffers[j].dirty && buffers[j].address == begin + k;
        assert BufferOk(buffers[i], media, sectors, begin, info);
        assert buffers'[j] == buffers[j];
      }
    }
  }

  /** A store to a data sector. */
  lemma DataWritten(buffers: seq<Buffer>, media: seq<seq<Byte>>, sectors: seq<seq<Byte>>, begin: nat, info: nat, lba: nat, data: seq<Byte>)
    requires Holds(buffers, media, sectors, begin, info) && lba < |media| && |data| == 512
    requires lba != info && !(begin <= lba < begin + |sectors|)
    ensures Holds(buffers, media[lba := data], sectors, begin, info)
  {
    forall j | 0 <= j < |buffers|
      ensures BufferOk(buffers[j], media[lba := data], sectors, begin, info)
    {
      assert BufferOk(buffers[j], media, sectors, begin, info);
    }
  }
}
