/** Cluster chains of a FAT: what extending, starting and freeing a chain do to it and
    to the other chains. */
module FatChains {
  import opened FatTable

  /** The entry of the `i`th cluster names the next one, or is an end mark. */
  ghost predicate LinkAt(fat32: bool, t: seq<nat>, ch: seq<nat>, i: nat)
    requires i < |ch| && ch[i] < |t|
  {
    if i + 1 < |ch| then t[ch[i]] == ch[i + 1] else t[ch[i]] >= EndMark(fat32)
  }

  ghost predicate Clusters(t: seq<nat>, limit: nat, ch: seq<nat>) {
    forall i :: 0 <= i < |ch| ==> 2 <= ch[i] < limit && ch[i] < |t|
  }

  ghost predicate NoRepeats(ch: seq<nat>) {
    forall i, j :: 0 <= i < j < |ch| ==> ch[i] != ch[j]
  }

  /** `ch` follows the links of `t` from its first cluster to the end mark. */
  ghost predicate IsChain(fat32: bool, t: seq<nat>, limit: nat, ch: seq<nat>) {
    && |ch| > 0 && Clusters(t, limit, ch) && NoRepeats(ch)
    && (forall i {:trigger LinkAt(fat32, t, ch, i)} :: 0 <= i < |ch| ==> LinkAt(fat32, t, ch, i))
  }

  ghost predicate Disjoint(a: seq<nat>, b: seq<nat>) {
    forall i, j :: 0 <= i < |a| && 0 <= j < |b| ==> a[i] != b[j]
  }

  ghost predicate Owned(files: seq<seq<nat>>, c: nat) {
    exists f :: 0 <= f < |files| && c in files[f]
  }

  ghost predicate Shape(fat32: bool, t: seq<nat>, limit: nat) {
    2 <= limit <= |t| && limit < EndMark(fat32) && t[0] != 0 && t[1] != 0
  }

  ghost predicate AllChains(fat32: bool, t: seq<nat>, limit: nat, files: seq<seq<nat>>) {
    forall f :: 0 <= f < |files| ==> IsChain(fat32, t, limit, files[f])
  }

  ghost predicate AllDisjoint(files: seq<seq<nat>>) {
    forall f, g :: 0 <= f < g < |files| ==> Disjoint(files[f], files[g])
  }

  /** No cluster is lost: used and not marked bad, it is on a chain. */
  ghost predicate NoneLost(fat32: bool, t: seq<nat>, files: seq<seq<nat>>) {
    forall c :: 2 <= c < |t| && t[c] != 0 && t[c] != EndMark(fat32) - 1 ==> Owned(files, c)
  }

  /** The used clusters are those of the chains, and each is on one chain. */
  ghost predicate Wf(fat32: bool, t: seq<nat>, limit: nat, files: seq<seq<nat>>) {
    && Shape(fat32, t, limit) && AllChains(fat32, t, limit, files) && AllDisjoint(files) && NoneLost(fat32, t, files)
  }

  /** The entry of a cluster on a chain. */
  lemma ChainUsed(fat32: bool, t: seq<nat>, limit: nat, ch: seq<nat>, i: nat)
    requires IsChain(fat32, t, limit, ch) && i < |ch|
    ensures ch[i] < |t| && LinkAt(fat32, t, ch, i) && t[ch[i]] != 0
  {
    assert LinkAt(fat32, t, ch, i);
  }

  lemma NextOnChain(fat32: bool, t: seq<nat>, limit: nat, ch: seq<nat>, i: nat)
    requires IsChain(fat32, t, limit, ch) && i < |ch| && limit < EndMark(fat32)
    ensures 2 <= ch[i] < |t| && Next(fat32, t[ch[i]]) == if i + 1 < |ch| then ch[i + 1] else LAST
  {
    ChainUsed(fat32, t, limit, ch, i);
  }

  /** A chain whose entries did not change. */
  lemma ChainKept(fat32: bool, t: seq<nat>, u: seq<nat>, limit: nat, ch: seq<nat>)
    requires IsChain(fat32, t, limit, ch) && |u| == |t| && forall i :: 0 <= i < |ch| ==> u[ch[i]] == t[ch[i]]
    ensures IsChain(fat32, u, limit, ch)
  {
    forall i | 0 <= i < |ch|
      ensures LinkAt(fat32, u, ch, i)
    {
      assert LinkAt(fat32, t, ch, i);
    }
  }

  // ---------- extending ----------

  /** `more` lists, in order, the first free entries of `t` from `from` on. */
  ghost predicate FirstBlanks(t: seq<nat>, from: nat, more: seq<nat>) {
    && (forall i :: 0 <= i < |more| ==> from <= more[i] < |t| && t[more[i]] == 0)
    && (forall i, j :: 0 <= i < j < |more| ==> more[i] < more[j])
    && (forall c :: from <= c < |t| && t[c] == 0 && |more| > 0 && c <= more[|more| - 1] ==> c in more)
  }

  /** The cluster that a chain ending in `last` ends in once `more` is appended. */
  function Tail(last: nat, more: seq<nat>): nat {
    if more == [] then last else more[|more| - 1]
  }

  ghost predicate SameBut(t: seq<nat>, u: seq<nat>, last: nat, more: seq<nat>) {
    |u| == |t| && forall c :: 0 <= c < |t| && c != last && c !in more ==> u[c] == t[c]
  }

  /** `u` is `t` with `more` appended to a chain that ended in `last`. */
  ghost predicate Extended(fat32: bool, t: seq<nat>, u: seq<nat>, from: nat, last: nat, more: seq<nat>) {
    && last < |t| && FirstBlanks(t, from, more) && SameBut(t, u, last, more)
    && u[last] == (if more == [] then t[last] else more[0])
    && (forall i {:trigger LinkAt(fat32, u, more, i)} :: 0 <= i < |more| ==> LinkAt(fat32, u, more, i))
  }

  /** Clusters whose numbers a link can hold, and none of them 0, which marks a free entry. */
  ghost predicate Nameable(fat32: bool, more: seq<nat>) {
    forall i :: 0 <= i < |more| ==> 0 < more[i] < EndMark(fat32) + 8
  }

  lemma BlanksStep(t: seq<nat>, u: seq<nat>, from: nat, last: nat, more: seq<nat>, c: nat)
    requires last < |t| && FirstBlanks(t, from, more) && t[last] != 0 && SameBut(t, u, last, more)
    requires from <= c < |t| && t[c] == 0 && c !in more && forall d :: from <= d < c ==> u[d] != 0
    ensures FirstBlanks(t, from, more + [c])
  {
    var more' := more + [c];
    assert more != [] ==> more[|more| - 1] < c;
    forall d | from <= d < |t| && t[d] == 0 && d <= c
      ensures d in more'
    {
      assert d != c ==> d in more;
      assert more'[|more|] == c;
    }
  }

  /** Free entries of `u` were free in `t` and were not taken. */
  lemma StillBlank(fat32: bool, t: seq<nat>, u: seq<nat>, from: nat, last: nat, more: seq<nat>, c: nat)
    requires Extended(fat32, t, u, from, last, more) && t[last] != 0 && Nameable(fat32, more) && c < |t| && u[c] == 0
    ensures t[c] == 0 && c !in more && c != last
  {
    hide FirstBlanks;
    forall i | 0 <= i < |more|
      ensures more[i] < |t| && u[more[i]] != 0
    {
      NewInside(t, from, more, i);
      assert LinkAt(fat32, u, more, i);
    }
  }

  /** One more cluster: the first free one. */
  lemma ExtendedStep(fat32: bool, t: seq<nat>, u: seq<nat>, from: nat, last: nat, more: seq<nat>, c: nat)
    requires Extended(fat32, t, u, from, last, more) && t[last] != 0 && Nameable(fat32, more + [c])
    requires from <= c < |t| && u[c] == 0 && forall d :: from <= d < c ==> u[d] != 0
    ensures var tail := Tail(last, more);
      tail < |t| && tail != c && Extended(fat32, t, u[tail := Stored(fat32, c)][c := Stored(fat32, LAST)], from, last, more + [c])
  {
    hide FirstBlanks, LinkAt;
    var all := more + [c];
    assert all[|more|] == c && forall i :: 0 <= i < |more| ==> all[i] == more[i];
    StillBlank(fat32, t, u, from, last, more, c);
    BlanksStep(t, u, from, last, more, c);
    TailInside(t, from, last, more);
    StepLinks(fat32, t, u, from, last, more, c);
    StoredAsIs(fat32, c);
  }

  lemma StoredAsIs(fat32: bool, c: nat)
    requires c < EndMark(fat32) + 8
    ensures Stored(fat32, c) == c && Stored(fat32, LAST) >= EndMark(fat32)
  {
  }

  /** The links of the appended clusters after that step. */
  lemma StepLinks(fat32: bool, t: seq<nat>, u: seq<nat>, from: nat, last: nat, more: seq<nat>, c: nat)
    requires Extended(fat32, t, u, from, last, more) && t[last] != 0 && c < |t| && c !in more && c != last && c < EndMark(fat32) + 8
    requires Tail(last, more) < |t| && last !in more
    ensures var v := u[Tail(last, more) := Stored(fat32, c)][c := Stored(fat32, LAST)];
      forall i {:trigger LinkAt(fat32, v, more + [c], i)} :: 0 <= i <= |more| ==>
        (more + [c])[i] < |v| && LinkAt(fat32, v, more + [c], i)
  {
    hide FirstBlanks, SameBut;
    StoredAsIs(fat32, c);
    SameLength(t, u, last, more);
    var tail, more' := Tail(last, more), more + [c];
    var v := u[tail := Stored(fat32, c)][c := Stored(fat32, LAST)];
    forall i | 0 <= i <= |more|
      ensures more'[i] < |v| && LinkAt(fat32, v, more', i)
    {
      if i < |more| {
        NewInside(t, from, more, i);
        assert LinkAt(fat32, u, more, i);
        assert more[i] != c;
      }
    }
  }

  lemma SameLength(t: seq<nat>, u: seq<nat>, last: nat, more: seq<nat>)
    requires SameBut(t, u, last, more)
    ensures |u| == |t|
  {
  }

  lemma TailInside(t: seq<nat>, from: nat, last: nat, more: seq<nat>)
    requires last < |t| && t[last] != 0 && FirstBlanks(t, from, more)
    ensures Tail(last, more) < |t| && last !in more && (Tail(last, more) == last || Tail(last, more) in more)
  {
  }

  lemma NewInside(t: seq<nat>, from: nat, more: seq<nat>, i: nat)
    requires FirstBlanks(t, from, more) && i < |more|
    ensures more[i] < |t| && t[more[i]] == 0 && (i < |more| - 1 ==> more[i] < more[|more| - 1])
  {
  }

  lemma NewDistinct(t: seq<nat>, limit: nat, from: nat, ch: seq<nat>, more: seq<nat>)
    requires FirstBlanks(t, from, more) && NoRepeats(ch) && Clusters(t, limit, ch) && Clusters(t, limit, more)
    requires forall i :: 0 <= i < |ch| ==> ch[i] !in more
    ensures NoRepeats(ch + more) && Clusters(t, limit, ch + more)
  {
  }

  /** The extended chain. */
  lemma ExtendedChain(fat32: bool, t: seq<nat>, u: seq<nat>, limit: nat, from: nat, ch: seq<nat>, more: seq<nat>)
    requires IsChain(fat32, t, limit, ch) && Extended(fat32, t, u, from, ch[|ch| - 1], more) && Clusters(t, limit, more)
    ensures IsChain(fat32, u, limit, ch + more)
  {
    var all, n := ch + more, |ch|;
    forall i | 0 <= i < |ch|
      ensures ch[i] !in more
    {
      ChainUsed(fat32, t, limit, ch, i);
    }
    NewDistinct(t, limit, from, ch, more);
    hide FirstBlanks;
    forall i | 0 <= i < |all|
      ensures LinkAt(fat32, u, all, i)
    {
      if i < n {
        assert LinkAt(fat32, t, ch, i);
        assert i < n - 1 ==> ch[i] != ch[n - 1];
      } else {
        assert LinkAt(fat32, u, more, i - n);
      }
    }
  }

  /** The other chains. */
  lemma OtherChain(fat32: bool, t: seq<nat>, u: seq<nat>, limit: nat, from: nat, last: nat, more: seq<nat>, o: seq<nat>)
    requires IsChain(fat32, t, limit, o) && Extended(fat32, t, u, from, last, more) && last !in o
    ensures IsChain(fat32, u, limit, o) && Disjoint(more, o)
  {
    forall i | 0 <= i < |o|
      ensures o[i] !in more && u[o[i]] == t[o[i]]
    {
      ChainUsed(fat32, t, limit, o, i);
    }
    ChainKept(fat32, t, u, limit, o);
  }

  lemma JoinedDisjoint(a: seq<nat>, b: seq<nat>, c: seq<nat>)
    requires (Disjoint(a, c) || Disjoint(c, a)) && Disjoint(b, c)
    ensures Disjoint(a + b, c) && Disjoint(c, a + b)
  {
  }

  lemma ChainEnds(fat32: bool, t: seq<nat>, limit: nat, ch: seq<nat>)
    requires IsChain(fat32, t, limit, ch)
    ensures |ch| > 0 && ch[|ch| - 1] in ch && 2 <= ch[|ch| - 1] < |t| && t[ch[|ch| - 1]] >= EndMark(fat32)
  {
    ChainUsed(fat32, t, limit, ch, |ch| - 1);
  }

  lemma EntriesKept(fat32: bool, t: seq<nat>, u: seq<nat>, limit: nat, from: nat, last: nat, more: seq<nat>)
    requires Extended(fat32, t, u, from, last, more) && Shape(fat32, t, limit) && last >= 2
    requires forall i :: 0 <= i < |more| ==> more[i] < limit
    ensures Shape(fat32, u, limit) && SameBut(t, u, last, more) && Clusters(t, limit, more)
  {
  }

  /** Extension keeps the table a set of chains; only the extended one grows. */
  lemma ExtendedWf(fat32: bool, t: seq<nat>, u: seq<nat>, limit: nat, from: nat, files: seq<seq<nat>>, f: nat, more: seq<nat>)
    requires Wf(fat32, t, limit, files) && f < |files|
    requires |files[f]| > 0 && Extended(fat32, t, u, from, files[f][|files[f]| - 1], more)
    requires forall i :: 0 <= i < |more| ==> more[i] < limit
    ensures Wf(fat32, u, limit, files[f := files[f] + more])
  {
    hide IsChain, Extended, Shape, Disjoint, Clusters;
    var ch, files' := files[f], files[f := files[f] + more];
    var last := ch[|ch| - 1];
    ChainEnds(fat32, t, limit, ch);
    EntriesKept(fat32, t, u, limit, from, last, more);
    ExtendedChain(fat32, t, u, limit, from, ch, more);
    forall g | 0 <= g < |files| && g != f
      ensures IsChain(fat32, u, limit, files[g]) && Disjoint(more, files[g])
    {
      NotIn(files, f, g, last);
      OtherChain(fat32, t, u, limit, from, last, more, files[g]);
    }
    forall g, h | 0 <= g < h < |files'|
      ensures Disjoint(files'[g], files'[h])
    {
      assert Disjoint(files[g], files[h]);
      if g == f {
        JoinedDisjoint(ch, more, files[h]);
      } else if h == f {
        JoinedDisjoint(ch, more, files[g]);
      }
    }
    ExtendedNoneLost(fat32, t, u, files, f, last, more);
  }

  lemma NotIn(files: seq<seq<nat>>, f: nat, g: nat, c: nat)
    requires AllDisjoint(files) && f < |files| && g < |files| && f != g && c in files[f]
    ensures c !in files[g]
  {
    assert if g < f then Disjoint(files[g], files[f]) else Disjoint(files[f], files[g]);
  }

  lemma ExtendedNoneLost(fat32: bool, t: seq<nat>, u: seq<nat>, files: seq<seq<nat>>, f: nat, last: nat, more: seq<nat>)
    requires NoneLost(fat32, t, files) && SameBut(t, u, last, more) && f < |files| && last in files[f]
    ensures NoneLost(fat32, u, files[f := files[f] + more])
  {
    var files' := files[f := files[f] + more];
    forall c | 2 <= c < |u| && u[c] != 0 && u[c] != EndMark(fat32) - 1
      ensures Owned(files', c)
    {
      if c in more || c == last {
        assert c in files'[f];
      } else {
        var g :| 0 <= g < |files| && c in files[g];
        assert c in files'[g];
      }
    }
  }

  // ---------- starting ----------

  /** A new chain of one cluster. */
  lemma LastIsUsed(fat32: bool)
    ensures Stored(fat32, LAST) != 0
  {
  }

  lemma NotOwned(fat32: bool, t: seq<nat>, limit: nat, files: seq<seq<nat>>, c: nat)
    requires AllChains(fat32, t, limit, files) && c >= limit
    ensures !Owned(files, c)
  {
  }

  /** A used entry beyond the volume's clusters is on no chain of the volume. */
  lemma OutsideNotWf(fat32: bool, t: seq<nat>, limit: nat, c: nat)
    requires 2 <= limit <= c < |t| && t[c] == Stored(fat32, LAST)
    ensures forall files :: !Wf(fat32, t, limit, files)
  {
    assert t[c] != 0 && t[c] != EndMark(fat32) - 1;
    forall files
      ensures !Wf(fat32, t, limit, files)
    {
      if AllChains(fat32, t, limit, files) {
        NotOwned(fat32, t, limit, files, c);
      }
    }
  }

  lemma OutsideChain(fat32: bool, t: seq<nat>, limit: nat, files: seq<seq<nat>>, f: nat, more: seq<nat>)
    requires !Within(more, limit) && f < |files|
    ensures !Wf(fat32, t, limit, files[f := files[f] + more])
  {
    var i :| 0 <= i < |more| && more[i] >= limit;
    var ch := files[f] + more;
    assert ch[|files[f]| + i] == more[i];
    assert !IsChain(fat32, t, limit, ch);
    assert files[f := ch][f] == ch;
  }

  lemma StartedWf(fat32: bool, t: seq<nat>, limit: nat, files: seq<seq<nat>>, c: nat)
    requires Wf(fat32, t, limit, files) && c < limit && t[c] == 0
    ensures Wf(fat32, t[c := Stored(fat32, LAST)], limit, files + [[c]])
  {
    var u, files' := t[c := Stored(fat32, LAST)], files + [[c]];
    forall f | 0 <= f < |files|
      ensures IsChain(fat32, u, limit, files[f]) && Disjoint(files[f], [c])
    {
      forall i | 0 <= i < |files[f]|
        ensures files[f][i] != c
      {
        ChainUsed(fat32, t, limit, files[f], i);
      }
      ChainKept(fat32, t, u, limit, files[f]);
    }
    assert IsChain(fat32, u, limit, [c]) by { assert LinkAt(fat32, u, [c], 0); }
    hide IsChain, Disjoint;
    forall d | 2 <= d < |u| && u[d] != 0 && u[d] != EndMark(fat32) - 1
      ensures Owned(files', d)
    {
      if d == c {
        assert d in files'[|files|];
      } else {
        var f :| 0 <= f < |files| && d in files[f];
        assert d in files'[f];
      }
    }
  }

  // ---------- freeing ----------

  /** Links stay inside the table. */
  ghost predicate InRange(fat32: bool, t: seq<nat>) {
    forall c :: 0 <= c < |t| ==> t[c] < |t| || t[c] >= EndMark(fat32)
  }

  ghost function UsedCount(t: seq<nat>): nat {
    if t == [] then 0 else UsedCount(t[..|t| - 1]) + (if t[|t| - 1] != 0 then 1 else 0)
  }

  lemma {:induction false} UsedCleared(t: seq<nat>, c: nat)
    requires c < |t| && t[c] != 0
    ensures UsedCount(t[c := 0]) == UsedCount(t) - 1
  {
    var n := |t| - 1;
    if c == n {
      assert t[c := 0][..n] == t[..n];
    } else {
      assert t[c := 0][..n] == t[..n][c := 0];
      UsedCleared(t[..n], c);
    }
  }

  /** Following the links from `c`, clearing every entry on the way, never leaves the
      table; it ends at an end mark or at an entry that is 0, if only because it was
      cleared before. */
  ghost predicate Inside(fat32: bool, t: seq<nat>, c: nat)
    decreases UsedCount(t)
  {
    c == LAST || (c < |t| && (c == 0 || t[c] == 0 || (
      UsedCleared(t, c);
      Inside(fat32, t[c := 0], Next(fat32, t[c])))))
  }

  /** The table once the chain from `c` was followed and cleared. */
  ghost function Freed(fat32: bool, t: seq<nat>, c: nat): seq<nat>
    requires Inside(fat32, t, c)
    decreases UsedCount(t)
  {
    if c == LAST || c == 0 || t[c] == 0 then t else
      UsedCleared(t, c);
      Freed(fat32, t[c := 0], Next(fat32, t[c]))
  }

  /** With links in range no walk leaves the table, a cyclic or cross-linked one neither. */
  lemma {:induction false} InRangeInside(fat32: bool, t: seq<nat>, c: nat)
    requires InRange(fat32, t) && (c == LAST || c < |t|)
    ensures Inside(fat32, t, c)
    decreases UsedCount(t)
  {
    if c != LAST && c != 0 && t[c] != 0 {
      UsedCleared(t, c);
      InRangeInside(fat32, t[c := 0], Next(fat32, t[c]));
    }
  }

  ghost predicate Cleared(t: seq<nat>, u: seq<nat>, ch: seq<nat>) {
    |u| == |t| && forall c :: 0 <= c < |t| ==> u[c] == if c in ch then 0 else t[c]
  }

  /** Freeing a chain clears its clusters and nothing else, whatever the other entries
      hold. */
  lemma FreedChain(fat32: bool, t: seq<nat>, limit: nat, ch: seq<nat>)
    requires IsChain(fat32, t, limit, ch) && limit < EndMark(fat32)
    ensures Inside(fat32, t, ch[0]) && Cleared(t, Freed(fat32, t, ch[0]), ch)
  {
    FreedFrom(fat32, t, t, limit, ch, 0);
  }

  lemma {:induction false} FreedFrom(fat32: bool, t: seq<nat>, u: seq<nat>, limit: nat, ch: seq<nat>, i: nat)
    requires IsChain(fat32, t, limit, ch) && limit < EndMark(fat32) && i < |ch|
    requires Cleared(t, u, ch[..i])
    ensures Inside(fat32, u, ch[i]) && Cleared(t, Freed(fat32, u, ch[i]), ch)
    decreases |ch| - i
  {
    ChainUsed(fat32, t, limit, ch, i);
    assert ch[i] !in ch[..i];
    var u' := u[ch[i] := 0];
    assert ch[..i + 1] == ch[..i] + [ch[i]];
    assert Cleared(t, u', ch[..i + 1]);
    UsedCleared(u, ch[i]);
    if i + 1 < |ch| {
      FreedFrom(fat32, t, u', limit, ch, i + 1);
    } else {
      assert ch[..i + 1] == ch;
    }
  }

  function Without<T>(q: seq<T>, i: nat): (r: seq<T>)
    requires i < |q|
  {
    q[..i] + q[i + 1..]
  }

  /** Freeing one chain keeps the others; its clusters are free again. */
  lemma FreedWf(fat32: bool, t: seq<nat>, u: seq<nat>, limit: nat, files: seq<seq<nat>>, f: nat)
    requires Wf(fat32, t, limit, files) && f < |files| && Cleared(t, u, files[f])
    ensures Wf(fat32, u, limit, Without(files, f))
  {
    hide IsChain, Disjoint;
    var rest := Without(files, f);
    assert forall g :: 0 <= g < |rest| ==> rest[g] == files[if g < f then g else g + 1];
    assert Shape(fat32, u, limit) by { ChainAboveTwo(fat32, t, limit, files[f]); }
    forall g | 0 <= g < |files| && g != f
      ensures IsChain(fat32, u, limit, files[g])
    {
      forall i | 0 <= i < |files[g]|
        ensures files[g][i] < |t| && u[files[g][i]] == t[files[g][i]]
      {
        ChainUsed(fat32, t, limit, files[g], i);
        NotIn(files, g, f, files[g][i]);
      }
      ChainKept(fat32, t, u, limit, files[g]);
    }
    forall c | 2 <= c < |u| && u[c] != 0 && u[c] != EndMark(fat32) - 1
      ensures Owned(rest, c)
    {
      var g :| 0 <= g < |files| && c in files[g];
      assert c in rest[if g < f then g else g - 1];
    }
  }

  lemma ChainAboveTwo(fat32: bool, t: seq<nat>, limit: nat, ch: seq<nat>)
    requires IsChain(fat32, t, limit, ch)
    ensures 0 !in ch && 1 !in ch
  {
  }

  // ---------- counting ----------

  /** The free clusters from `lo` to below `hi`. */
  ghost function Blanks(t: seq<nat>, lo: nat, hi: nat): set<nat> {
    set c | lo <= c < hi && c < |t| && t[c] == 0
  }

  ghost function Elements(q: seq<nat>): set<nat> {
    set c | c in q
  }

  lemma {:induction false} FewElements(s: set<nat>, q: seq<nat>)
    requires forall c :: c in s ==> c in q
    ensures |s| <= |q|
  {
    if q == [] {
      assert s == {};
    } else {
      var n := |q| - 1;
      FewElements(s - {q[n]}, q[..n]);
    }
  }

  lemma {:induction false} DistinctElements(q: seq<nat>)
    requires NoRepeats(q)
    ensures |Elements(q)| == |q|
  {
    if q != [] {
      var n := |q| - 1;
      DistinctElements(q[..n]);
      assert q[n] !in q[..n];
      assert Elements(q) == Elements(q[..n]) + {q[n]};
    }
  }

  /** Clusters taken in order lie inside the volume exactly if it has that many free. */
  lemma EnoughBlanks(t: seq<nat>, from: nat, limit: nat, more: seq<nat>)
    requires FirstBlanks(t, from, more)
    ensures (forall i :: 0 <= i < |more| ==> more[i] < limit) <==> |more| <= |Blanks(t, from, limit)|
  {
    if i :| 0 <= i < |more| && more[i] >= limit {
      forall c | c in Blanks(t, from, limit)
        ensures c in more[..i]
      {
        assert c in more;
      }
      FewElements(Blanks(t, from, limit), more[..i]);
    } else {
      DistinctElements(more);
      assert Elements(more) <= Blanks(t, from, limit);
      Subset(Elements(more), Blanks(t, from, limit));
    }
  }

  lemma {:induction false} Subset(a: set<nat>, b: set<nat>)
    requires a <= b
    ensures |a| <= |b|
  {
    if a != {} {
      var x :| x in a;
      Subset(a - {x}, b - {x});
    }
  }

  ghost predicate Within(more: seq<nat>, limit: nat) {
    forall i :: 0 <= i < |more| ==> more[i] < limit
  }

  /** No entry beyond the volume's clusters is free. */
  ghost predicate NoSpare(t: seq<nat>, limit: nat) {
    forall c :: limit <= c < |t| ==> t[c] != 0
  }

  /** Clusters taken so far lie in the volume exactly if it has that many free ones; then
      links can name them. */
  ghost predicate FewTaken(fat32: bool, t: seq<nat>, from: nat, limit: nat, more: seq<nat>) {
    && (Within(more, limit) <==> |more| <= |Blanks(t, from, limit)|)
    && (Within(more, limit) ==> Nameable(fat32, more))
  }

  lemma NoneTaken(fat32: bool, t: seq<nat>, from: nat, limit: nat)
    ensures FewTaken(fat32, t, from, limit, []) && Within([], limit)
  {
  }

  /** One more cluster is taken, the first that is free now. */
  lemma TakenStep(fat32: bool, t: seq<nat>, u: seq<nat>, from: nat, last: nat, limit: nat, more: seq<nat>, c: nat)
    requires Nameable(fat32, more) ==> Extended(fat32, t, u, from, last, more)
    requires |u| == |t| && last < |t| && t[last] != 0 && limit < EndMark(fat32) && Tail(last, more) < |t|
    requires from <= c < |t| && u[c] == 0 && forall d :: from <= d < c ==> u[d] != 0
    ensures var u' := u[Tail(last, more) := Stored(fat32, c)][c := Stored(fat32, LAST)];
      Nameable(fat32, more + [c]) ==> Extended(fat32, t, u', from, last, more + [c])
    ensures t[0] != 0 && FewTaken(fat32, t, from, limit, more) ==>
      && FewTaken(fat32, t, from, limit, more + [c])
      && (Within(more, limit) && NoSpare(t, limit) ==> Within(more + [c], limit))
  {
    hide Extended, Tail;
    var all := more + [c];
    assert all[|more|] == c && forall i :: 0 <= i < |more| ==> all[i] == more[i];
    if Nameable(fat32, all) {
      ExtendedStep(fat32, t, u, from, last, more, c);
    }
    if t[0] != 0 && FewTaken(fat32, t, from, limit, more) && Within(more, limit) {
      NextBlankInside(fat32, t, u, from, last, limit, more, c);
    }
  }

  /** No free entry is left: if the clusters taken are the volume's, so is every free one. */
  lemma AllFound(fat32: bool, t: seq<nat>, u: seq<nat>, from: nat, last: nat, limit: nat, more: seq<nat>)
    requires Nameable(fat32, more) ==> Extended(fat32, t, u, from, last, more)
    requires last < |t| && t[last] != 0 && forall c :: from <= c < |u| ==> u[c] != 0
    ensures FewTaken(fat32, t, from, limit, more) ==> |Blanks(t, from, limit)| <= |more|
  {
    if FewTaken(fat32, t, from, limit, more) && Within(more, limit) {
      AllTaken(fat32, t, u, from, last, limit, more);
    }
  }

  /** While the volume has free clusters left, the next one taken is one of them. */
  lemma NextBlankInside(fat32: bool, t: seq<nat>, u: seq<nat>, from: nat, last: nat, limit: nat, more: seq<nat>, c: nat)
    requires Extended(fat32, t, u, from, last, more) && t[last] != 0 && Nameable(fat32, more)
    requires from <= c < |t| && u[c] == 0 && forall d :: from <= d < c ==> u[d] != 0
    ensures c < limit <==> |more| < |Blanks(t, from, limit)|
    ensures t[c] == 0
  {
    hide Extended;
    ExtensionFacts(fat32, t, u, from, last, more);
    StillBlank(fat32, t, u, from, last, more, c);
    BlanksStep(t, u, from, last, more, c);
    EnoughBlanks(t, from, limit, more + [c]);
    LastIsLargest(t, from, more, c);
  }

  lemma LastIsLargest(t: seq<nat>, from: nat, more: seq<nat>, c: nat)
    requires FirstBlanks(t, from, more + [c])
    ensures forall i :: 0 <= i < |more| + 1 ==> (more + [c])[i] <= c
  {
    var all := more + [c];
    assert all[|more|] == c;
  }

  lemma ExtensionFacts(fat32: bool, t: seq<nat>, u: seq<nat>, from: nat, last: nat, more: seq<nat>)
    requires Extended(fat32, t, u, from, last, more)
    ensures last < |t| && |u| == |t| && FirstBlanks(t, from, more) && SameBut(t, u, last, more) && NoRepeats(more)
  {
  }

  /** If no free entry is left, all of them were taken. */
  lemma AllTaken(fat32: bool, t: seq<nat>, u: seq<nat>, from: nat, last: nat, limit: nat, more: seq<nat>)
    requires Extended(fat32, t, u, from, last, more) && t[last] != 0 && forall c :: from <= c < |u| ==> u[c] != 0
    ensures |Blanks(t, from, limit)| <= |more|
  {
    FewElements(Blanks(t, from, limit), more);
  }

  /** Free and used are conserved: what the chain gains, the free clusters lose. */
  lemma ExtendedBlanks(fat32: bool, t: seq<nat>, u: seq<nat>, from: nat, last: nat, limit: nat, more: seq<nat>)
    requires Extended(fat32, t, u, from, last, more) && t[last] != 0 && |t| > 0 && t[0] != 0
    requires forall i :: 0 <= i < |more| ==> more[i] < limit
    ensures Blanks(u, from, limit) == Blanks(t, from, limit) - Elements(more)
    ensures |Blanks(u, from, limit)| == |Blanks(t, from, limit)| - |more|
  {
    forall i | 0 <= i < |more|
      ensures u[more[i]] != 0
    {
      assert LinkAt(fat32, u, more, i);
    }
    assert Blanks(u, from, limit) == Blanks(t, from, limit) - Elements(more);
    DistinctElements(more);
    assert Elements(more) <= Blanks(t, from, limit);
  }

  lemma ClearedBlanks(fat32: bool, t: seq<nat>, u: seq<nat>, limit: nat, ch: seq<nat>)
    requires IsChain(fat32, t, limit, ch) && Cleared(t, u, ch)
    ensures Blanks(u, 2, limit) == Blanks(t, 2, limit) + Elements(ch)
    ensures |Blanks(u, 2, limit)| == |Blanks(t, 2, limit)| + |ch|
  {
    forall i | 0 <= i < |ch|
      ensures t[ch[i]] != 0
    {
      ChainUsed(fat32, t, limit, ch, i);
    }
    assert Blanks(u, 2, limit) == Blanks(t, 2, limit) + Elements(ch);
    DistinctElements(ch);
    assert Elements(ch) !! Blanks(t, 2, limit);
  }
}
