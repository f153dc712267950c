/** Directories as sequences of 32-byte entries: which entry a name resolves to, and
    what placing the entries of a new file does to the names already there. */
module DirEntries {
  import opened Bytes
  import opened FatTable
  import opened LongNames

  // ---------- comparing names ----------

  function Lower(b: Byte): Byte {
    if 0x41 <= b <= 0x5A then b + 32 else b
  }

  predicate SameNoCase(a: seq<Byte>, b: seq<Byte>) {
    |a| == |b| && forall i :: 0 <= i < |a| ==> Lower(a[i]) == Lower(b[i])
  }

  /** The position of the last dot, or -1. */
  function LastDot(s: seq<Byte>): (p: int)
    ensures -1 <= p < |s| && (p >= 0 ==> s[p] == 0x2E) && forall i :: p < i < |s| ==> s[i] != 0x2E
  {
    if s == [] then -1 else if s[|s| - 1] == 0x2E then |s| - 1 else LastDot(s[..|s| - 1])
  }

  /** `s` without trailing spaces: its longest prefix that does not end in one. */
  function Trimmed(s: seq<Byte>): (r: seq<Byte>)
    ensures |r| <= |s| && r == s[..|r|] && (r != [] ==> r[|r| - 1] != 0x20) && forall i :: |r| <= i < |s| ==> s[i] == 0x20
  {
    if s != [] && s[|s| - 1] == 0x20 then Trimmed(s[..|s| - 1]) else s
  }

  function Stem(s: seq<Byte>): seq<Byte> {
    Trimmed(if LastDot(s) == -1 then s else s[..LastDot(s)])
  }

  function Extension(s: seq<Byte>): seq<Byte> {
    s[LastDot(s) + 1..]
  }

  /** `fatfs_compare_names`: equal but for case and for spaces before the extension. */
  predicate Match(a: seq<Byte>, b: seq<Byte>) {
    && (LastDot(a) == -1) == (LastDot(b) == -1)
    && (LastDot(a) != -1 ==> SameNoCase(Extension(a), Extension(b)))
    && SameNoCase(Stem(a), Stem(b))
  }

  lemma MatchIsEquivalence(a: seq<Byte>, b: seq<Byte>, c: seq<Byte>)
    ensures Match(a, a) && (Match(a, b) ==> Match(b, a)) && (Match(a, b) && Match(b, c) ==> Match(a, c))
  {
  }

  /** Equal, or the two cases of one ASCII letter. */
  predicate SameLetter(x: Byte, y: Byte) {
    x == y || (0x41 <= x <= 0x5A && y == x + 32) || (0x41 <= y <= 0x5A && x == y + 32)
  }

  /** As long as each other, and byte for byte the same but for case. */
  ghost predicate Alike(a: seq<Byte>, b: seq<Byte>) {
    |a| == |b| && forall i :: 0 <= i < |a| ==> SameLetter(a[i], b[i])
  }

  /** `s` has its last dot at `d`, or none and `d` is its end; the spaces directly before
      that are those from `i` on. */
  ghost predicate Tail(s: seq<Byte>, i: nat, d: nat) {
    && i <= d <= |s| && (d < |s| ==> s[d] == 0x2E) && (forall k :: d < k < |s| ==> s[k] != 0x2E)
    && (d == |s| ==> 0x2E !in s)
    && (forall k :: i <= k < d ==> s[k] == 0x20) && (i > 0 ==> s[i - 1] != 0x20)
  }

  lemma LowerIsSameLetter(x: Byte, y: Byte)
    ensures Lower(x) == Lower(y) <==> SameLetter(x, y)
  {
  }

  lemma AlikeIsSameNoCase(a: seq<Byte>, b: seq<Byte>)
    ensures Alike(a, b) <==> SameNoCase(a, b)
  {
    hide Lower, SameLetter;
    if |a| == |b| {
      forall i | 0 <= i < |a|
        ensures Lower(a[i]) == Lower(b[i]) <==> SameLetter(a[i], b[i])
      {
        LowerIsSameLetter(a[i], b[i]);
      }
    }
  }

  lemma TrimmedIs(s: seq<Byte>, i: nat)
    requires i <= |s| && (i > 0 ==> s[i - 1] != 0x20) && forall k :: i <= k < |s| ==> s[k] == 0x20
    ensures Trimmed(s) == s[..i]
  {
    hide Trimmed;
    var r := Trimmed(s);
    assert forall k :: 0 <= k < |r| ==> r[k] == s[k];
  }

  lemma LastDotIs(s: seq<Byte>, d: nat)
    requires d <= |s| && (d < |s| ==> s[d] == 0x2E) && (d == |s| ==> 0x2E !in s) && forall k :: d < k < |s| ==> s[k] != 0x2E
    ensures LastDot(s) == if d < |s| then d else -1
  {
    hide LastDot;
  }

  lemma TailIs(s: seq<Byte>, i: nat, d: nat)
    requires Tail(s, i, d)
    ensures Stem(s) == s[..i] && LastDot(s) == if d < |s| then d else -1
  {
    hide LastDot, Trimmed;
    LastDotIs(s, d);
    TrimmedIs(s[..d], i);
    assert s[..d][..i] == s[..i];
    assert s[..|s|] == s;
  }

  lemma JoinedDot(s: seq<Byte>, i: nat, d: nat)
    requires Tail(s, i, d)
    ensures var c := s[..i] + s[d..];
      && (d < |s| ==> i < |c| && c[i] == 0x2E && s[d..] == [0x2E] + s[d + 1..])
      && (forall k :: 0 <= k < |c| && (k > i || d == |s|) ==> c[k] != 0x2E)
  {
    var c := s[..i] + s[d..];
    assert forall k :: i < k < |c| ==> c[k] == s[d + (k - i)];
  }

  lemma AlikeDots(a: seq<Byte>, b: seq<Byte>)
    requires Alike(a, b)
    ensures forall k :: 0 <= k < |a| ==> (a[k] == 0x2E <==> b[k] == 0x2E)
  {
  }

  lemma AlikeParts(a: seq<Byte>, x: seq<Byte>, b: seq<Byte>, y: seq<Byte>)
    requires |a| == |b|
    ensures Alike(a + x, b + y) <==> Alike(a, b) && Alike(x, y)
  {
    hide SameLetter;
    var c, e := a + x, b + y;
    if Alike(c, e) {
      assert forall k :: 0 <= k < |a| ==> c[k] == a[k] && e[k] == b[k];
      assert forall k :: 0 <= k < |x| ==> c[|a| + k] == x[k] && e[|a| + k] == y[k];
    }
  }

  lemma MatchIs(a: seq<Byte>, i: nat, d: nat, b: seq<Byte>, j: nat, e: nat)
    requires Tail(a, i, d) && Tail(b, j, e)
    ensures Match(a, b) <==> ((d == |a|) == (e == |b|)) && (d < |a| && e < |b| ==> Alike(a[d + 1..], b[e + 1..])) && Alike(a[..i], b[..j])
  {
    hide LastDot, Trimmed, Stem, SameNoCase, Alike;
    TailIs(a, i, d);
    TailIs(b, j, e);
    hide Tail;
    AlikeIsSameNoCase(a[..i], b[..j]);
    AlikeIsSameNoCase(Extension(a), Extension(b));
  }

  /** In names that are alike the last dots are in the same place. */
  lemma DotsAgree(a: seq<Byte>, i: nat, d: nat, b: seq<Byte>, j: nat, e: nat)
    requires Tail(a, i, d) && Tail(b, j, e) && Alike(a[..i] + a[d..], b[..j] + b[e..])
    ensures (d == |a|) == (e == |b|) && i == j
  {
    JoinedDot(a, i, d);
    JoinedDot(b, j, e);
    hide Tail;
    var c, f := a[..i] + a[d..], b[..j] + b[e..];
    AlikeDots(c, f);
    hide SameLetter;
  }

  /** Two names match exactly if they are alike once the spaces directly before the last
      dot, or at the end of a name without one, are taken out. */
  lemma MatchMeans(a: seq<Byte>, i: nat, d: nat, b: seq<Byte>, j: nat, e: nat)
    requires Tail(a, i, d) && Tail(b, j, e)
    ensures Match(a, b) <==> Alike(a[..i] + a[d..], b[..j] + b[e..])
  {
    hide Match, Alike;
    MatchIs(a, i, d, b, j, e);
    SameLength(a[..i], b[..j]);
    if Alike(a[..i] + a[d..], b[..j] + b[e..]) {
      DotsAgree(a, i, d, b, j, e);
    }
    JoinedDot(a, i, d);
    JoinedDot(b, j, e);
    hide Tail;
    SelfAlike([]);
    SelfAlike([0x2E]);
    if i == j && ((d == |a|) == (e == |b|)) {
      AlikeParts(a[..i], a[d..], b[..j], b[e..]);
      if d < |a| {
        AlikeParts([0x2E], a[d + 1..], [0x2E], b[e + 1..]);
      } else {
        assert a[d..] == [] && b[e..] == [];
      }
    }
  }

  lemma SelfAlike(a: seq<Byte>)
    ensures Alike(a, a)
  {
  }

  lemma SameLength(a: seq<Byte>, b: seq<Byte>)
    ensures Alike(a, b) ==> |a| == |b|
  {
  }

  /** Every name has such a tail. */
  lemma TailOf(s: seq<Byte>) returns (i: nat, d: nat)
    ensures Tail(s, i, d)
  {
    hide LastDot, Trimmed;
    d := if LastDot(s) == -1 then |s| else LastDot(s);
    var r := Trimmed(s[..d]);
    i := |r|;
    assert i > 0 ==> s[i - 1] == r[i - 1];
    assert forall k :: i <= k < d ==> s[k] == s[..d][k];
  }

  /** Names without spaces match exactly if they are alike. */
  lemma MatchWithoutSpaces(a: seq<Byte>, b: seq<Byte>)
    requires 0x20 !in a && 0x20 !in b
    ensures Match(a, b) <==> Alike(a, b)
  {
    hide Match, Alike;
    var i, d := TailOf(a);
    var j, e := TailOf(b);
    NoSpaceTail(a, i, d);
    NoSpaceTail(b, j, e);
    MatchMeans(a, i, d, b, j, e);
  }

  lemma NoSpaceTail(s: seq<Byte>, i: nat, d: nat)
    requires 0x20 !in s && Tail(s, i, d)
    ensures i == d && s[..i] + s[d..] == s
  {
    assert i < |s| ==> s[i] in s;
  }

  // ---------- entries ----------

  function Attr(e: seq<Byte>): int
    requires |e| == 32
  {
    e[11] as int
  }

  /** `fatfs_entry_lfn_text`: part of a long name. */
  predicate IsText(e: seq<Byte>)
    requires |e| == 32
  {
    Attr(e) % 16 == 15
  }

  /** An entry that a new file may overwrite, if no long name needs it. */
  predicate IsFree(e: seq<Byte>)
    requires |e| == 32
  {
    !IsText(e) && (e[0] == 0 || e[0] == 0xE5)
  }

  predicate IsTaken(e: seq<Byte>)
    requires |e| == 32
  {
    !IsText(e) && !IsFree(e)
  }

  /** An entry that names can resolve to: not free, not a volume label, and neither
      hidden nor a system file. */
  predicate IsLive(e: seq<Byte>)
    requires |e| == 32
  {
    IsTaken(e) && Attr(e) != 8 && Attr(e) / 2 % 4 == 0
  }

  /** The name of an entry without a long name. */
  function ShortName(e: seq<Byte>): seq<Byte>
    requires |e| == 32
  {
    var dot := (e[8] != 0x20 || e[9] != 0x20 || e[10] != 0x20) && e[0] != 0x2E;
    CString(e[..8] + [if dot then 0x2E else 0x20] + e[8..11] + [0])
  }

  /** Part of a name as users write it: neither a space nor a dot, and no 0. */
  ghost predicate IsPlain(s: seq<Byte>) {
    forall i :: 0 <= i < |s| ==> s[i] != 0 && s[i] != 0x20 && s[i] != 0x2E
  }

  function Spaces(n: nat): (r: seq<Byte>)
    ensures |r| == n
  {
    seq(n, i => 0x20)
  }

  /** The eleven bytes of a short name: stem and extension, padded with spaces. */
  function Eleven(stem: seq<Byte>, ext: seq<Byte>): (r: seq<Byte>)
    requires |stem| <= 8 && |ext| <= 3
    ensures |r| == 11
  {
    stem + Spaces(8 - |stem|) + ext + Spaces(3 - |ext|)
  }

  /** The name of such a file as users write it. */
  function Dotted(stem: seq<Byte>, ext: seq<Byte>): seq<Byte> {
    if ext == [] then stem else stem + [0x2E] + ext
  }

  lemma ShortNameIs(e: seq<Byte>, stem: seq<Byte>, ext: seq<Byte>)
    requires |e| == 32 && IsPlain(stem) && IsPlain(ext) && 1 <= |stem| <= 8 && |ext| <= 3 && e[..11] == Eleven(stem, ext)
    ensures ShortName(e) == stem + Spaces(8 - |stem|) + [if ext == [] then 0x20 else 0x2E] + ext + Spaces(3 - |ext|)
  {
    hide CString;
    var f := Eleven(stem, ext);
    assert forall k :: 0 <= k < 11 ==> e[k] == e[..11][k];
    assert ext != [] ==> e[8] == ext[0];
    var dot := if ext == [] then 0x20 else 0x2E;
    var name := stem + Spaces(8 - |stem|) + [dot] + ext + Spaces(3 - |ext|);
    assert e[..8] == f[..8] && e[8..11] == f[8..11];
    assert e[..8] + [dot] + e[8..11] == name;
    CStringAt(name + [0], 12);
    assert (name + [0])[..12] == name;
  }

  /** A file without a long name is found under the name that users write for it exactly
      if its extension is empty or has all three bytes: the padding of a shorter one is
      compared too. */
  lemma ShortNameFound(e: seq<Byte>, stem: seq<Byte>, ext: seq<Byte>)
    requires |e| == 32 && IsPlain(stem) && IsPlain(ext) && 1 <= |stem| <= 8 && |ext| <= 3 && e[..11] == Eleven(stem, ext)
    ensures Match(ShortName(e), Dotted(stem, ext)) <==> |ext| == 0 || |ext| == 3
  {
    hide Match, ShortName;
    ShortNameIs(e, stem, ext);
    var s, q, n := ShortName(e), Dotted(stem, ext), |stem|;
    if ext == [] {
      assert Tail(s, n, 12) && s[..n] + s[12..] == stem;
      assert Tail(q, n, n) && q[..n] + q[n..] == stem;
      MatchMeans(s, n, 12, q, n, n);
      SelfAlike(stem);
    } else {
      assert Tail(s, n, 8) && s[..n] + s[8..] == q + Spaces(3 - |ext|);
      assert Tail(q, n, n) && q[..n] + q[n..] == q;
      MatchMeans(s, n, 8, q, n, n);
      SameLength(q + Spaces(3 - |ext|), q);
      if |ext| == 3 {
        assert q + Spaces(0) == q;
        SelfAlike(q);
      }
    }
  }

  type Dir = seq<seq<Byte>>

  ghost predicate AllEntries(dir: Dir) {
    forall i :: 0 <= i < |dir| ==> |dir[i]| == 32
  }

  /** Where the text entries directly before entry `i` begin. */
  ghost function RunStart(dir: Dir, i: nat): (s: nat)
    requires AllEntries(dir) && i <= |dir|
    ensures s <= i && (forall j :: s <= j < i ==> IsText(dir[j])) && (s > 0 ==> !IsText(dir[s - 1]))
  {
    if i > 0 && IsText(dir[i - 1]) then RunStart(dir, i - 1) else i
  }

  ghost function RunBefore(dir: Dir, i: nat): seq<seq<Byte>>
    requires AllEntries(dir) && i <= |dir|
  {
    dir[RunStart(dir, i)..i]
  }

  /** Every live entry has a whole long name directly before it, or none. */
  ghost predicate Wf(dir: Dir) {
    AllEntries(dir) && forall i :: 0 <= i < |dir| && IsLive(dir[i]) ==> IsRun(RunBefore(dir, i))
  }

  ghost function NameOf(dir: Dir, i: nat): seq<Byte>
    requires AllEntries(dir) && i < |dir|
  {
    var run := RunBefore(dir, i);
    if run == [] then ShortName(dir[i]) else LongName(run)
  }

  ghost predicate Names(dir: Dir, i: nat, q: seq<Byte>)
    requires AllEntries(dir) && i < |dir|
  {
    IsLive(dir[i]) && Match(NameOf(dir, i), q)
  }

  /** `i` is the entry that `q` resolves to: the first one of that name. */
  ghost predicate Resolves(dir: Dir, q: seq<Byte>, i: nat)
    requires AllEntries(dir)
  {
    i < |dir| && Names(dir, i, q) && forall j :: 0 <= j < i ==> !Names(dir, j, q)
  }

  ghost predicate Missing(dir: Dir, q: seq<Byte>)
    requires AllEntries(dir)
  {
    forall i :: 0 <= i < |dir| ==> !Names(dir, i, q)
  }

  // ---------- reading a directory ----------

  lemma RunGrows(dir: Dir, i: nat)
    requires AllEntries(dir) && i < |dir|
    ensures RunBefore(dir, i + 1) == if IsText(dir[i]) then RunBefore(dir, i) + [dir[i]] else []
  {
  }

  /** What the cache holds when entry `i` is reached: the text entries before it. */
  ghost predicate InStep(dir: Dir, i: nat, l: Lfn, base: Lfn)
    requires AllEntries(dir) && i <= |dir|
  {
    LfnOk(l) && LfnOk(base) && base.count == 0 && l == CachedAll(base, RunBefore(dir, i))
  }

  lemma StepText(dir: Dir, i: nat, l: Lfn, base: Lfn)
    requires AllEntries(dir) && i < |dir| && InStep(dir, i, l, base) && IsText(dir[i])
    ensures InStep(dir, i + 1, Cached(l, dir[i]), base)
  {
    RunGrows(dir, i);
    var run := RunBefore(dir, i + 1);
    assert run[..|run| - 1] == RunBefore(dir, i);
  }

  lemma StepOther(dir: Dir, i: nat, l: Lfn)
    requires AllEntries(dir) && i < |dir| && LfnOk(l) && l.count == 0 && !IsText(dir[i])
    ensures InStep(dir, i + 1, l, l)
  {
    RunGrows(dir, i);
  }

  /** At a live entry the cache gives its name. */
  lemma NameRead(dir: Dir, i: nat, l: Lfn, base: Lfn)
    requires Wf(dir) && i < |dir| && InStep(dir, i, l, base) && IsLive(dir[i])
    ensures NameOf(dir, i) == if l.count == 0 then ShortName(dir[i]) else CString(Terminated(l).text)
  {
    var run := RunBefore(dir, i);
    if run != [] {
      RunReads(base, run);
    }
  }

  // ---------- placing a new file ----------

  /** The entries from `p` to `e` are not taken, and no long name crosses either end. */
  ghost predicate Gap(dir: Dir, p: nat, e: nat)
    requires AllEntries(dir)
  {
    && p <= e < |dir| && IsFree(dir[e]) && (p > 0 ==> IsTaken(dir[p - 1]))
    && forall j :: p <= j <= e ==> !IsTaken(dir[j])
  }

  /** The entries of a file: a long name and the entry itself. */
  ghost predicate IsFile(file: Dir) {
    && |file| > 1 && AllEntries(file) && IsRun(file[..|file| - 1]) && IsLive(file[|file| - 1])
    && forall k :: 0 <= k < |file| - 1 ==> IsText(file[k])
  }

  /** `dir'` is `dir` with `file` written over the entries from `p` on. */
  ghost predicate Overwritten(dir: Dir, dir': Dir, p: nat, file: Dir) {
    && |dir'| == |dir| && p + |file| <= |dir|
    && forall i :: 0 <= i < |dir| ==> dir'[i] == if p <= i < p + |file| then file[i - p] else dir[i]
  }

  lemma OverwrittenEntries(dir: Dir, dir': Dir, p: nat, file: Dir)
    requires AllEntries(dir) && AllEntries(file) && Overwritten(dir, dir', p, file)
    ensures AllEntries(dir')
  {
  }

  lemma {:induction false} SameStart(dir: Dir, dir': Dir, i: nat)
    requires AllEntries(dir) && AllEntries(dir') && i <= |dir| && i <= |dir'|
    requires var s := RunStart(dir, i); forall j :: s <= j < i ==> dir'[j] == dir[j]
    requires var s := RunStart(dir, i); s > 0 ==> !IsText(dir'[s - 1])
    ensures RunStart(dir', i) == RunStart(dir, i)
  {
    if i > 0 && IsText(dir[i - 1]) {
      SameStart(dir, dir', i - 1);
    }
  }

  lemma SameRun(dir: Dir, dir': Dir, i: nat)
    requires AllEntries(dir) && AllEntries(dir') && i <= |dir| && i <= |dir'|
    requires var s := RunStart(dir, i); forall j :: s <= j < i ==> dir'[j] == dir[j]
    requires var s := RunStart(dir, i); s > 0 ==> !IsText(dir'[s - 1])
    ensures RunBefore(dir', i) == RunBefore(dir, i)
  {
    SameStart(dir, dir', i);
  }

  lemma LiveIsTaken(e: seq<Byte>)
    requires |e| == 32
    ensures IsLive(e) ==> IsTaken(e)
    ensures IsTaken(e) || IsFree(e) ==> !IsText(e)
    ensures IsText(e) ==> !IsLive(e)
  {
  }

  /** Entries outside the gap keep their names. */
  lemma OthersKept(dir: Dir, dir': Dir, p: nat, e: nat, file: Dir, i: nat)
    requires AllEntries(dir) && AllEntries(dir') && Gap(dir, p, e) && IsFile(file) && p + |file| - 1 <= e
    requires Overwritten(dir, dir', p, file) && i < |dir| && IsLive(dir[i])
    ensures !(p <= i <= e) && dir'[i] == dir[i] && RunBefore(dir', i) == RunBefore(dir, i)
  {
    hide IsText, IsFree, IsTaken, IsLive, IsRun, RunStart;
    LiveIsTaken(dir[i]);
    LiveIsTaken(dir[e]);
    var s := RunStart(dir, i);
    if i > e {
      assert s > e;
      if s == e + 1 {
        LiveIsTaken(dir'[e]);
      }
    }
    SameRun(dir, dir', i);
  }

  /** The new file's run is its own. */
  lemma OwnRun(dir: Dir, dir': Dir, p: nat, e: nat, file: Dir)
    requires AllEntries(dir) && AllEntries(dir') && Gap(dir, p, e) && IsFile(file) && p + |file| - 1 <= e
    requires Overwritten(dir, dir', p, file)
    ensures RunBefore(dir', p + |file| - 1) == file[..|file| - 1]
  {
    hide IsText, IsFree, IsTaken, IsLive, IsRun, RunStart;
    var m := p + |file| - 1;
    if p > 0 {
      LiveIsTaken(dir[p - 1]);
    }
    StartIs(dir', p, m);
    assert dir'[p..m] == file[..|file| - 1];
  }

  lemma {:induction false} StartIs(dir: Dir, p: nat, m: nat)
    requires AllEntries(dir) && p <= m <= |dir| && (p > 0 ==> !IsText(dir[p - 1])) && forall j :: p <= j < m ==> IsText(dir[j])
    ensures RunStart(dir, m) == p
  {
    if p < m {
      StartIs(dir, p, m - 1);
    }
  }

  /** The live entries are the old ones, each with its name, and one more. */
  ghost predicate OneMore(dir: Dir, dir': Dir, m: nat, name: seq<Byte>)
    requires AllEntries(dir) && AllEntries(dir')
  {
    && |dir'| == |dir| && m < |dir| && !IsLive(dir[m]) && IsLive(dir'[m]) && NameOf(dir', m) == name
    && (forall i :: 0 <= i < |dir| && i != m ==> (IsLive(dir'[i]) <==> IsLive(dir[i])))
    && (forall i :: 0 <= i < |dir| && IsLive(dir[i]) ==> dir'[i] == dir[i] && NameOf(dir', i) == NameOf(dir, i))
  }

  /** A new file in a gap overwrites no live entry and no long name of one. */
  lemma Placed(dir: Dir, dir': Dir, p: nat, e: nat, file: Dir)
    requires Wf(dir) && Gap(dir, p, e) && IsFile(file) && p + |file| - 1 <= e && Overwritten(dir, dir', p, file)
    ensures Wf(dir') && OneMore(dir, dir', p + |file| - 1, LongName(file[..|file| - 1]))
  {
    hide IsFree, IsTaken, IsText, IsLive, IsRun, LongName, RunBefore, ShortName;
    var m := p + |file| - 1;
    OverwrittenEntries(dir, dir', p, file);
    OwnRun(dir, dir', p, e, file);
    LiveIsTaken(dir[m]);
    forall i | 0 <= i < |dir|
      ensures i != m ==> (IsLive(dir'[i]) <==> IsLive(dir[i]))
      ensures IsLive(dir[i]) ==> i != m && dir'[i] == dir[i] && RunBefore(dir', i) == RunBefore(dir, i)
    {
      if IsLive(dir[i]) {
        OthersKept(dir, dir', p, e, file, i);
      }
      LiveIsTaken(dir'[i]);
    }
  }

  /** So a name that the new one does not match resolves as before, and the new name,
      if it was missing, resolves to the new entry. */
  lemma Resolution(dir: Dir, dir': Dir, m: nat, name: seq<Byte>, q: seq<Byte>)
    requires AllEntries(dir) && AllEntries(dir') && OneMore(dir, dir', m, name)
    ensures !Match(name, q) ==> (Missing(dir', q) <==> Missing(dir, q))
    ensures !Match(name, q) ==> forall i :: 0 <= i < |dir| ==> (Resolves(dir', q, i) <==> Resolves(dir, q, i))
    ensures Match(name, q) && Missing(dir, q) ==> Resolves(dir', q, m)
  {
    hide IsLive, NameOf, Match;
    forall i | 0 <= i < |dir|
      ensures Names(dir', i, q) <==> Names(dir, i, q) || (i == m && Match(name, q))
    {
    }
    hide Names;
    SameNames(dir, dir', q, m, Match(name, q));
  }

  lemma SameNames(dir: Dir, dir': Dir, q: seq<Byte>, m: nat, new': bool)
    requires AllEntries(dir) && AllEntries(dir') && |dir'| == |dir| && m < |dir|
    requires forall i :: 0 <= i < |dir| ==> (Names(dir', i, q) <==> Names(dir, i, q) || (i == m && new'))
    ensures !new' ==> (Missing(dir', q) <==> Missing(dir, q)) && forall i :: 0 <= i < |dir| ==> (Resolves(dir', q, i) <==> Resolves(dir, q, i))
    ensures new' && Missing(dir, q) ==> Resolves(dir', q, m)
  {
    hide Names;
  }

  // ---------- a longer directory ----------

  function BlankEntry(): (e: seq<Byte>)
    ensures |e| == 32
  {
    seq(32, i => 0)
  }

  ghost predicate AllBlank(more: Dir) {
    forall i :: 0 <= i < |more| ==> more[i] == BlankEntry()
  }

  lemma BlankIsFree(e: seq<Byte>)
    requires e == BlankEntry()
    ensures IsFree(e) && !IsLive(e) && !IsTaken(e)
  {
  }

  lemma LengthenedAt(dir: Dir, more: Dir, j: nat)
    requires AllEntries(dir) && AllBlank(more) && j < |dir + more|
    ensures var e := (dir + more)[j]; |e| == 32 && (if j < |dir| then e == dir[j] else IsFree(e) && !IsTaken(e))
  {
    if j >= |dir| {
      BlankIsFree(more[j - |dir|]);
    }
  }

  lemma LengthenedName(dir: Dir, more: Dir, q: seq<Byte>, i: nat)
    requires Wf(dir) && AllBlank(more) && AllEntries(dir + more) && i < |dir + more|
    ensures IsLive((dir + more)[i]) ==> IsRun(RunBefore(dir + more, i))
    ensures Names(dir + more, i, q) <==> i < |dir| && Names(dir, i, q)
  {
    hide IsLive, IsText, IsTaken, IsFree, IsRun, RunStart, BlankEntry, Match, LongName, ShortName;
    if i < |dir| {
      SameRun(dir, dir + more, i);
    } else {
      BlankIsFree(more[i - |dir|]);
    }
  }

  /** Blank entries at the end change no name. */
  lemma Lengthened(dir: Dir, more: Dir, q: seq<Byte>)
    requires Wf(dir) && AllBlank(more)
    ensures Wf(dir + more) && (Missing(dir + more, q) <==> Missing(dir, q))
    ensures forall i :: 0 <= i < |dir| ==> (Resolves(dir + more, q, i) <==> Resolves(dir, q, i))
  {
    hide IsLive, IsRun, BlankEntry, Names, RunBefore, AllBlank;
    var dir' := dir + more;
    forall i | 0 <= i < |dir'|
      ensures |dir'[i]| == 32
    {
      LengthenedAt(dir, more, i);
    }
    forall i | 0 <= i < |dir'|
      ensures IsLive(dir'[i]) ==> IsRun(RunBefore(dir', i))
      ensures Names(dir', i, q) <==> i < |dir| && Names(dir, i, q)
    {
      LengthenedName(dir, more, q, i);
    }
  }

  // ---------- looking for a gap ----------

  /** Where the entries directly before entry `i` begin that are not taken. */
  ghost function GapStart(dir: Dir, i: nat): (s: nat)
    requires AllEntries(dir) && i <= |dir|
    ensures s <= i && (forall j :: s <= j < i ==> !IsTaken(dir[j])) && (s > 0 ==> IsTaken(dir[s - 1]))
  {
    if i > 0 && !IsTaken(dir[i - 1]) then GapStart(dir, i - 1) else i
  }

  /** At the end of a directory that was lengthened, there is a gap. */
  lemma GapAtEnd(dir: Dir, more: Dir, p: nat, e: nat)
    requires AllEntries(dir) && AllBlank(more) && p == GapStart(dir, |dir|) && |dir| <= e < |dir + more|
    ensures AllEntries(dir + more) && Gap(dir + more, p, e)
  {
    hide IsLive, IsText, IsTaken, IsFree, BlankEntry, GapStart, AllBlank;
    var dir' := dir + more;
    forall j | 0 <= j < |dir'|
      ensures |dir'[j]| == 32
    {
      LengthenedAt(dir, more, j);
    }
    forall j | p <= j <= e
      ensures !IsTaken(dir'[j])
    {
      LengthenedAt(dir, more, j);
    }
    LengthenedAt(dir, more, e);
    if p > 0 {
      LengthenedAt(dir, more, p - 1);
    }
  }

  // ---------- sectors of entries ----------

  function EntryOf(sector: seq<Byte>, item: nat): (e: seq<Byte>)
    requires |sector| == 512 && item < 16
    ensures |e| == 32
  {
    sector[32 * item..32 * item + 32]
  }

  ghost function Entries(sectors: seq<seq<Byte>>): (dir: Dir)
    requires Whole(sectors)
    ensures |dir| == 16 * |sectors| && AllEntries(dir)
    ensures forall k :: 0 <= k < |dir| ==> dir[k] == EntryOf(sectors[k / 16], k % 16)
  {
    seq(16 * |sectors|, k requires 0 <= k < 16 * |sectors| => EntryOf(sectors[k / 16], k % 16))
  }

  lemma EntriesAppended(a: seq<seq<Byte>>, b: seq<seq<Byte>>)
    requires Whole(a) && Whole(b)
    ensures Whole(a + b) && Entries(a + b) == Entries(a) + Entries(b)
  {
    forall k | 0 <= k < 16 * |a + b|
      ensures Entries(a + b)[k] == (Entries(a) + Entries(b))[k]
    {
      if k >= 16 * |a| {
        var j := k - 16 * |a|;
        assert j / 16 == k / 16 - |a| && j % 16 == k % 16;
        assert (Entries(a) + Entries(b))[k] == Entries(b)[j];
      }
    }
  }

  lemma BlankSectors(b: seq<seq<Byte>>)
    requires forall x :: 0 <= x < |b| ==> b[x] == ZeroSector()
    ensures Whole(b) && AllBlank(Entries(b))
  {
    forall k | 0 <= k < 16 * |b|
      ensures Entries(b)[k] == BlankEntry()
    {
      assert b[k / 16] == ZeroSector();
    }
  }

  lemma EntryOfSpliced(sector: seq<Byte>, item: nat, e: seq<Byte>, j: nat)
    requires |sector| == 512 && item < 16 && j < 16 && |e| == 32
    ensures EntryOf(Spliced(sector, 32 * item, e), j) == if j == item then e else EntryOf(sector, j)
  {
    var s := Spliced(sector, 32 * item, e);
    assert forall k :: 0 <= k < 512 ==> s[k] == if 32 * item <= k < 32 * item + 32 then e[k - 32 * item] else sector[k];
  }

  /** One more entry written into a sector. */
  lemma EntryWritten(dir: Dir, sectors: seq<seq<Byte>>, x: nat, item: nat, p: nat, file: Dir, e: seq<Byte>)
    requires Whole(sectors) && x < |sectors| && item < 16 && |e| == 32 && p + |file| == 16 * x + item
    requires Overwritten(dir, Entries(sectors), p, file)
    ensures var sector := Spliced(sectors[x], 32 * item, e);
      Whole(sectors[x := sector]) && Overwritten(dir, Entries(sectors[x := sector]), p, file + [e])
  {
    hide EntryOf, Spliced;
    var sector := Spliced(sectors[x], 32 * item, e);
    var sectors' := sectors[x := sector];
    forall k | 0 <= k < 16 * |sectors|
      ensures Entries(sectors')[k] == if k == 16 * x + item then e else Entries(sectors)[k]
    {
      if k / 16 == x {
        EntryOfSpliced(sectors[x], item, e, k % 16);
      }
    }
  }

  // ---------- a new file's entry ----------

  /** `fatfs_sfn_create_entry`. */
  function ShortEntry(short: seq<Byte>, size: nat, cluster: nat, isDir: bool): (e: seq<Byte>)
    requires |short| == 11
    ensures |e| == 32
  {
    short + [if isDir then 0x10 else 0x20, 0, 0, 0, 0, 0x20, 0, 0x20, 0] + Bytes16(cluster / 0x1_0000)
    + [0, 0, 0x20, 0] + Bytes16(cluster) + Bytes32(size)
  }

  /** The entry names the cluster and the size, and is live unless its name marks it free. */
  lemma ShortEntryReads(short: seq<Byte>, size: nat, cluster: nat, isDir: bool)
    requires |short| == 11 && size < 0x1_0000_0000 && cluster < 0x1_0000_0000
    ensures var e := ShortEntry(short, size, cluster, isDir);
      && Word16(e, 20) * 0x1_0000 + Word16(e, 26) == cluster && Word32(e, 28) == size && e[..11] == short
      && Attr(e) == (if isDir then 0x10 else 0x20)
      && (IsLive(e) <==> short[0] != 0 && short[0] != 0xE5)
  {
    var e := ShortEntry(short, size, cluster, isDir);
    assert e[20..22] == Bytes16(cluster / 0x1_0000) && e[26..28] == Bytes16(cluster) && e[28..32] == Bytes32(size);
    assert e[20] == e[20..22][0] && e[21] == e[20..22][1] && e[26] == e[26..28][0] && e[27] == e[26..28][1];
    assert e[28] == e[28..32][0] && e[29] == e[28..32][1] && e[30] == e[28..32][2] && e[31] == e[28..32][3];
    Digits(size);
    Halves(cluster);
    Digits16(cluster / 0x1_0000);
    Digits16(cluster);
  }

  lemma Halves(w: nat)
    requires w < 0x1_0000_0000
    ensures w / 0x1_0000 % 0x1_0000 * 0x1_0000 + w % 0x1_0000 == w
  {
  }

  /** The entries of a new file make a file. */
  lemma NewFile(file: Dir, name: seq<Byte>, sum: Byte)
    requires |file| > 1 && Spells(file[..|file| - 1], name, sum) && 1 <= |name| <= 260
    requires |file[|file| - 1]| == 32 && IsLive(file[|file| - 1])
    ensures IsFile(file)
  {
    var run := file[..|file| - 1];
    SpellsRun(run, name, sum);
    forall k | 0 <= k < |run|
      ensures |file[k]| == 32 && IsText(file[k])
    {
      assert file[k] == run[k] && IsPart(run[k], name, |run| - 1 - k, sum);
    }
  }

  /** `dir` lengthened to `n` entries. */
  ghost function WithBlanks(dir: Dir, n: nat): (r: Dir)
    requires AllEntries(dir) && |dir| <= n
    ensures |r| == n && AllEntries(r)
  {
    dir + seq(n - |dir|, i => BlankEntry())
  }

  /** What adding a file does to a directory that may have been lengthened for it. */
  ghost predicate Added(dir: Dir, dir': Dir, m: nat, name: seq<Byte>) {
    Wf(dir) && Wf(dir') && |dir| <= |dir'| && OneMore(WithBlanks(dir, |dir'|), dir', m, name)
  }

  /** After a file was added: other names resolve as before; the new one, if it was
      missing, resolves to the new entry. */
  lemma AddedResolution(dir: Dir, dir': Dir, m: nat, name: seq<Byte>, q: seq<Byte>)
    requires Added(dir, dir', m, name)
    ensures !Match(name, q) ==> (Missing(dir', q) <==> Missing(dir, q))
    ensures !Match(name, q) ==> forall i :: 0 <= i < |dir| ==> (Resolves(dir', q, i) <==> Resolves(dir, q, i))
    ensures Match(name, q) && Missing(dir, q) ==> Resolves(dir', q, m)
    ensures Match(name, name)
  {
    hide Match, Names, OneMore, BlankEntry;
    var more := seq(|dir'| - |dir|, i => BlankEntry());
    assert AllBlank(more);
    Lengthened(dir, more, q);
    Resolution(dir + more, dir', m, name, q);
    MatchIsEquivalence(name, name, name);
    hide Resolves, Missing;
  }
}
