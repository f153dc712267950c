/** Long file names in directory entries: thirteen bytes to an entry, the last part of
    the name first, and the cache that puts them together again. */
module LongNames {
  import opened Bytes

  /** `lfn_cache`: twenty parts of thirteen bytes and a byte for the terminator behind
      them, and the number of parts of the name being read. */
  datatype Lfn = Lfn(text: seq<Byte>, count: nat)

  ghost predicate LfnOk(l: Lfn) {
    |l.text| == 261 && l.count <= 20
  }

  // ---------- C strings ----------

  /** The bytes before the first 0. */
  function CString(s: seq<Byte>): (r: seq<Byte>)
    ensures |r| <= |s| && r == s[..|r|] && (forall i :: 0 <= i < |r| ==> r[i] != 0) && (|r| < |s| ==> s[|r|] == 0)
  {
    if s == [] || s[0] == 0 then [] else [s[0]] + CString(s[1..])
  }

  /** Where the string ends is all that matters. */
  lemma {:induction false} CStringAt(s: seq<Byte>, n: nat)
    requires n < |s| && s[n] == 0 && forall i :: 0 <= i < n ==> s[i] != 0
    ensures CString(s) == s[..n]
  {
    if n > 0 {
      CStringAt(s[1..], n - 1);
    }
  }

  lemma CStringPrefix(s: seq<Byte>, t: seq<Byte>, n: nat)
    requires n <= |s| && n <= |t| && s[..n] == t[..n] && exists i :: 0 <= i < n && s[i] == 0
    ensures CString(s) == CString(t)
  {
    hide CString;
    var i := CStringLength(s, n);
    assert t[..n][i] == s[..n][i];
    assert t[..i] == t[..n][..i] == s[..n][..i] == s[..i];
    SamePrefix(s, t, i);
    CStringAt(s, i);
    CStringAt(t, i);
  }

  lemma SamePrefix(s: seq<Byte>, t: seq<Byte>, i: nat)
    requires i <= |s| && i <= |t| && t[..i] == s[..i]
    ensures forall j :: 0 <= j < i ==> t[j] == s[j]
  {
    forall j | 0 <= j < i
      ensures t[j] == s[j]
    {
      assert t[..i][j] == s[..i][j];
    }
  }

  /** Where the first 0 is. */
  lemma CStringLength(s: seq<Byte>, n: nat) returns (i: nat)
    requires n <= |s| && exists i :: 0 <= i < n && s[i] == 0
    ensures i < n && s[i] == 0 && forall j :: 0 <= j < i ==> s[j] != 0
  {
    var r := CString(s);
    assert forall j :: 0 <= j < |r| ==> s[j] == r[j];
    i := |r|;
  }

  // ---------- reading ----------

  /** Where byte `i` of a part is in its entry: the low bytes of the 16-bit characters
      of three fields, which begin at bytes 1, 14 and 28. */
  function Slot(i: nat): (at: nat)
    requires i < 13
    ensures at == if i < 5 then 1 + 2 * i else if i < 11 then 14 + 2 * (i - 5) else 28 + 2 * (i - 11)
  {
    [1, 3, 5, 7, 9, 14, 16, 18, 20, 22, 24, 28, 30][i]
  }

  /** The number of the part that an entry holds, from 1; the last one is marked. */
  function Index(entry: seq<Byte>): nat
    requires |entry| == 32
  {
    entry[0] as int % 32
  }

  function Shown(x: Byte): Byte {
    if x == 0xFF then 0x20 else x
  }

  function Part(entry: seq<Byte>): (p: seq<Byte>)
    requires |entry| == 32
    ensures |p| == 13
  {
    seq(13, i requires 0 <= i < 13 => Shown(entry[Slot(i)]))
  }

  /** `fatfs_lfn_cache_entry`. */
  function Cached(l: Lfn, entry: seq<Byte>): (r: Lfn)
    requires LfnOk(l) && |entry| == 32
    ensures LfnOk(r)
  {
    var index := Index(entry);
    if index == 0 || index > 20 then l
    else Lfn(Spliced(l.text, 13 * (index - 1), Part(entry)), if l.count == 0 then index else l.count)
  }

  /** The same, byte by byte. */
  method CacheEntry(l: Lfn, entry: seq<Byte>) returns (r: Lfn)
    requires LfnOk(l) && |entry| == 32
    ensures r == Cached(l, entry)
  {
    var index := Index(entry);
    if index > 20 {
      return l;
    }
    if index == 0 {
      return l;
    }
    var text, at := l.text, 13 * (index - 1);
    for i := 0 to 13
      invariant |text| == 261
      invariant forall k :: 0 <= k < 261 ==> text[k] == if at <= k < at + i then entry[Slot(k - at)] else l.text[k]
    {
      text := text[at + i := entry[Slot(i)]];
    }
    for i := 0 to 13
      invariant |text| == 261
      invariant forall k :: 0 <= k < 261 ==>
        text[k] == if at <= k < at + i then Part(entry)[k - at] else if at <= k < at + 13 then entry[Slot(k - at)] else l.text[k]
    {
      if text[at + i] == 0xFF {
        text := text[at + i := 0x20];
      }
    }
    assert text == Spliced(l.text, at, Part(entry));
    r := Lfn(text, if l.count == 0 then index else l.count);
  }

  /** `fatfs_lfn_cache_get`: ends the text behind its parts. */
  function Terminated(l: Lfn): (r: Lfn)
    requires LfnOk(l)
    ensures LfnOk(r)
  {
    l.(text := l.text[13 * l.count := 0])
  }

  function CachedAll(l: Lfn, run: seq<seq<Byte>>): (r: Lfn)
    requires LfnOk(l) && forall k :: 0 <= k < |run| ==> |run[k]| == 32
    ensures LfnOk(r)
  {
    if run == [] then l else Cached(CachedAll(l, run[..|run| - 1]), run[|run| - 1])
  }

  /** The entries of one name: numbered down to 1. */
  ghost predicate IsRun(run: seq<seq<Byte>>) {
    |run| <= 20 && forall k :: 0 <= k < |run| ==> |run[k]| == 32 && Index(run[k]) == |run| - k
  }

  /** The parts of a run, in the order of the name. */
  function RunText(run: seq<seq<Byte>>): (t: seq<Byte>)
    requires forall k :: 0 <= k < |run| ==> |run[k]| == 32
    ensures |t| == 13 * |run|
  {
    if run == [] then [] else Part(run[|run| - 1]) + RunText(run[..|run| - 1])
  }

  function LongName(run: seq<seq<Byte>>): seq<Byte>
    requires forall k :: 0 <= k < |run| ==> |run[k]| == 32
  {
    CString(RunText(run) + [0])
  }

  /** After `k` entries of a run, the cache holds their parts at the end of the name's place. */
  lemma {:induction false} CachedSome(l: Lfn, run: seq<seq<Byte>>, k: nat)
    requires LfnOk(l) && l.count == 0 && IsRun(run) && 1 <= k <= |run|
    ensures var r := CachedAll(l, run[..k]);
      r.count == |run| && r.text[13 * (|run| - k)..13 * |run|] == RunText(run[..k])
  {
    hide Part, Spliced, Index;
    var n := |run|;
    var first := run[..k];
    assert first[..k - 1] == run[..k - 1] && first[k - 1] == run[k - 1];
    var was := CachedAll(l, run[..k - 1]);
    var now := CachedAll(l, first);
    if k > 1 {
      CachedSome(l, run, k - 1);
    } else {
      assert run[..0] == [];
    }
    hide CachedAll;
    SplicedParts(was.text, 13 * (n - k), Part(run[k - 1]), 13 * n);
  }

  lemma SplicedParts(text: seq<Byte>, at: nat, data: seq<Byte>, hi: nat)
    requires at + |data| <= hi <= |text|
    ensures Spliced(text, at, data)[at..hi] == data + text[at + |data|..hi]
  {
  }

  /** Whatever the cache held before, a whole run reads as its name. */
  lemma RunReads(l: Lfn, run: seq<seq<Byte>>)
    requires LfnOk(l) && l.count == 0 && IsRun(run) && run != []
    ensures CachedAll(l, run).count == |run| && CString(Terminated(CachedAll(l, run)).text) == LongName(run)
  {
    var n := |run|;
    assert run[..n] == run;
    CachedSome(l, run, n);
    var text := Terminated(CachedAll(l, run)).text;
    assert text[..13 * n + 1] == RunText(run) + [0];
    assert text[13 * n] == 0;
    CStringPrefix(text, RunText(run) + [0], 13 * n + 1);
  }

  // ---------- writing ----------

  /** `fatfs_lfn_entries_required`. */
  function EntriesFor(name: seq<Byte>): nat {
    (|name| + 12) / 13
  }

  /** The byte at position `k` of the padded name. */
  function Padded(name: seq<Byte>, k: nat): Byte {
    if k < |name| then name[k] else if k == |name| then 0 else 0xFF
  }

  /** `entry` is part `part` (from 0) of `name`. */
  ghost predicate IsPart(entry: seq<Byte>, name: seq<Byte>, part: nat, sum: Byte) {
    && |entry| == 32 && part < 20
    && entry[0] as int == (if part + 1 == EntriesFor(name) then 0x40 + part + 1 else part + 1)
    && entry[11] == 0x0F && entry[12] == 0 && entry[13] == sum && entry[26] == 0 && entry[27] == 0
    && (forall i :: 0 <= i < 13 ==> entry[Slot(i)] == Padded(name, 13 * part + i))
    && forall i :: 0 <= i < 13 ==> entry[Slot(i) + 1] == HighByte(name, 13 * part + i)
  }

  /** The high byte of the character at position `k`. */
  function HighByte(name: seq<Byte>, k: nat): Byte {
    if k <= |name| then 0 else 0xFF
  }

  lemma SlotsApart(i: nat, j: nat)
    requires i < 13 && j < 13
    ensures Slot(i) == Slot(j) ==> i == j
    ensures Slot(i) + 1 != Slot(j) && Slot(i) != 11 && Slot(i) != 13 && Slot(i) + 1 != 11 && Slot(i) + 1 != 13 && Slot(i) + 1 < 32
  {
  }

  /** `fatfs_filename_to_lfn`. */
  method FilenameToLfn(name: seq<Byte>, part: nat, sum: Byte) returns (entry: seq<Byte>)
    requires part < 20
    ensures IsPart(entry, name, part, sum)
  {
    entry := seq(32, i => 0);
    var start, length := 13 * part, |name|;
    var number: Byte := (part + 1) as Byte;
    entry := entry[0 := if (length + 12) / 13 - 1 == part then 0x40 + number else number];
    entry := entry[11 := 0x0F];
    entry := entry[13 := sum];
    for i := 0 to 13
      invariant |entry| == 32 && entry[11] == 0x0F && entry[12] == 0 && entry[13] == sum && entry[26] == 0 && entry[27] == 0
      invariant entry[0] as int == (if part + 1 == EntriesFor(name) then 0x40 + part + 1 else part + 1)
      invariant forall j :: 0 <= j < i ==> entry[Slot(j)] == Padded(name, start + j)
      invariant forall j :: 0 <= j < 13 ==> entry[Slot(j) + 1] == if j < i then HighByte(name, start + j) else 0
    {
      forall j | 0 <= j < 13
        ensures (Slot(i) == Slot(j) ==> i == j) && Slot(i) + 1 != Slot(j) && Slot(i) != Slot(j) + 1
      {
        SlotsApart(i, j);
        SlotsApart(j, i);
      }
      SlotsApart(i, i);
      if start + i < length {
        entry := entry[Slot(i) := name[start + i]];
      } else if start + i == length {
        entry := entry[Slot(i) := 0];
      } else {
        entry := entry[Slot(i) := 0xFF];
        entry := entry[Slot(i) + 1 := 0xFF];
      }
    }
  }

  /** The entries that hold `name`, its last part first. */
  ghost predicate Spells(run: seq<seq<Byte>>, name: seq<Byte>, sum: Byte) {
    |run| == EntriesFor(name) && forall k :: 0 <= k < |run| ==> IsPart(run[k], name, |run| - 1 - k, sum)
  }

  ghost function Spaced(name: seq<Byte>): (r: seq<Byte>)
    ensures |r| == |name|
  {
    seq(|name|, i requires 0 <= i < |name| => Shown(name[i]))
  }

  lemma SpellsRun(run: seq<seq<Byte>>, name: seq<Byte>, sum: Byte)
    requires Spells(run, name, sum) && |name| <= 260
    ensures IsRun(run)
  {
    forall k | 0 <= k < |run|
      ensures Index(run[k]) == |run| - k
    {
      assert IsPart(run[k], name, |run| - 1 - k, sum);
    }
  }

  lemma {:induction false} SpelledText(run: seq<seq<Byte>>, name: seq<Byte>, n: nat, k: nat, j: nat)
    requires |run| == n && k <= n && forall i :: 0 <= i < n ==> |run[i]| == 32
    requires forall i, s :: 0 <= i < n && 0 <= s < 13 ==> run[i][Slot(s)] == Padded(name, 13 * (n - 1 - i) + s)
    requires j < 13 * k
    ensures RunText(run[..k])[j] == Shown(Padded(name, 13 * (n - k) + j))
  {
    assert run[..k][..k - 1] == run[..k - 1];
    if j >= 13 {
      SpelledText(run, name, n, k - 1, j - 13);
    }
  }

  /** Writing a name and reading it back: every byte returns, except that 0xFF comes back
      as a space; so the name returns unchanged exactly if it holds no 0xFF. */
  lemma RoundTrip(run: seq<seq<Byte>>, name: seq<Byte>, sum: Byte)
    requires Spells(run, name, sum) && 1 <= |name| <= 260 && forall i :: 0 <= i < |name| ==> name[i] != 0
    ensures IsRun(run) && LongName(run) == Spaced(name)
    ensures LongName(run) == name <==> forall i :: 0 <= i < |name| ==> name[i] != 0xFF
  {
    SpellsRun(run, name, sum);
    var n := |run|;
    assert run[..n] == run;
    forall i, s | 0 <= i < n && 0 <= s < 13
      ensures run[i][Slot(s)] == Padded(name, 13 * (n - 1 - i) + s)
    {
      assert IsPart(run[i], name, n - 1 - i, sum);
    }
    var text := RunText(run) + [0];
    forall j | 0 <= j < 13 * n
      ensures text[j] == Shown(Padded(name, j))
    {
      SpelledText(run, name, n, n, j);
    }
    CStringAt(text, |name|);
    assert LongName(run) == Spaced(name);
    if LongName(run) == name {
      forall i | 0 <= i < |name|
        ensures name[i] != 0xFF
      {
        assert name[i] == Spaced(name)[i];
      }
    } else {
      assert exists i :: 0 <= i < |name| && Shown(name[i]) != name[i];
    }
  }

  /** All entries of a name, in the order they are written. */
  method WriteName(name: seq<Byte>, sum: Byte) returns (run: seq<seq<Byte>>)
    requires 1 <= |name| <= 260
    ensures Spells(run, name, sum)
  {
    run := [];
    var n := EntriesFor(name);
    var left := n;
    while left > 0
      invariant 0 <= left <= n && |run| == n - left
      invariant forall k :: 0 <= k < |run| ==> IsPart(run[k], name, n - 1 - k, sum)
    {
      left := left - 1;
      var entry := FilenameToLfn(name, left, sum);
      run := run + [entry];
    }
  }

  /** Feeds the entries to a cache that may hold another name's text, and reads it. */
  method ReadName(stale: seq<Byte>, run: seq<seq<Byte>>) returns (name: seq<Byte>)
    requires |stale| == 261 && IsRun(run) && run != []
    ensures name == LongName(run)
  {
    var l := Lfn(stale, 0);
    var k := 0;
    while k < |run|
      invariant 0 <= k <= |run| && LfnOk(l) && l == CachedAll(Lfn(stale, 0), run[..k])
    {
      assert run[..k + 1][..k] == run[..k];
      l := CacheEntry(l, run[k]);
      k := k + 1;
    }
    assert run[..k] == run;
    RunReads(Lfn(stale, 0), run);
    name := CString(Terminated(l).text);
  }
}
