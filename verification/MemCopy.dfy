/** The kernel's `memcpy` (word copies with byte shifting, unrolled eight times,
    32-bit little endian) and the `memmove` that delegates to it.

    Memory is one array of bytes and a pointer is an index into it. Memory is
    made of whole words, so its length is a multiple of the word size. */
module MemCopy {

  /** `m` with the `n` bytes at `dst` replaced by the `n` bytes that `m` has at `src`. */
  function Moved(m: seq<bv8>, dst: nat, src: nat, n: nat): (r: seq<bv8>)
    requires dst + n <= |m| && src + n <= |m|
    ensures |r| == |m|
  {
    m[..dst] + m[src..src + n] + m[dst + n..]
  }

  lemma MovedExtend(m: seq<bv8>, dst: nat, src: nat, k: nat, d: nat)
    requires dst + k + d <= |m| && src + k + d <= |m|
    ensures Moved(m, dst, src, k + d)
         == Moved(m, dst, src, k)[..dst + k] + m[src + k..src + k + d] + Moved(m, dst, src, k)[dst + k + d..]
  {
    var before := Moved(m, dst, src, k);
    assert before[..dst + k] == m[..dst] + m[src..src + k];
    assert before[dst + k + d..] == m[dst + k + d..];
    assert m[src..src + k + d] == m[src..src + k] + m[src + k..src + k + d];
  }

  /** A forward copy reads only bytes it has not yet written: the target is not
      above the source, or it starts after the source's end. */
  predicate ForwardSafe(dst: nat, src: nat, n: nat) {
    dst <= src || src + n <= dst
  }

  // ---------- words ----------

  function Word(b0: bv8, b1: bv8, b2: bv8, b3: bv8): bv32 {
    (b0 as bv32) | ((b1 as bv32) << 8) | ((b2 as bv32) << 16) | ((b3 as bv32) << 24)
  }

  function ByteOf(w: bv32, i: nat): bv8
    requires i < 4
  {
    if i == 0 then (w & 0xFF) as bv8
    else if i == 1 then ((w >> 8) & 0xFF) as bv8
    else if i == 2 then ((w >> 16) & 0xFF) as bv8
    else ((w >> 24) & 0xFF) as bv8
  }

  lemma WordBytes(b0: bv8, b1: bv8, b2: bv8, b3: bv8)
    ensures ByteOf(Word(b0, b1, b2, b3), 0) == b0
    ensures ByteOf(Word(b0, b1, b2, b3), 1) == b1
    ensures ByteOf(Word(b0, b1, b2, b3), 2) == b2
    ensures ByteOf(Word(b0, b1, b2, b3), 3) == b3
  {
  }

  /** The word a shifted copy stores: the upper bytes of the carried word, then
      the lower bytes of the next one. */
  function Shifted(carried: bv32, next: bv32, shift: nat): bv32
    requires 1 <= shift <= 3
  {
    if shift == 1 then (carried >> 8) | (next << 24)
    else if shift == 2 then (carried >> 16) | (next << 16)
    else (carried >> 24) | (next << 8)
  }

  lemma ShiftedBytes(carried: bv32, next: bv32, shift: nat, i: nat)
    requires 1 <= shift <= 3 && i < 4
    ensures ByteOf(Shifted(carried, next, shift), i)
         == if i + shift < 4 then ByteOf(carried, i + shift) else ByteOf(next, i + shift - 4)
  {
    if shift == 1 {
      ShiftedBytes1(carried, next);
    } else if shift == 2 {
      ShiftedBytes2(carried, next);
    } else {
      ShiftedBytes3(carried, next);
    }
  }

  lemma ShiftedBytes1(c: bv32, n: bv32)
    ensures ByteOf((c >> 8) | (n << 24), 0) == ByteOf(c, 1)
    ensures ByteOf((c >> 8) | (n << 24), 1) == ByteOf(c, 2)
    ensures ByteOf((c >> 8) | (n << 24), 2) == ByteOf(c, 3)
    ensures ByteOf((c >> 8) | (n << 24), 3) == ByteOf(n, 0)
  {
  }

  lemma ShiftedBytes2(c: bv32, n: bv32)
    ensures ByteOf((c >> 16) | (n << 16), 0) == ByteOf(c, 2)
    ensures ByteOf((c >> 16) | (n << 16), 1) == ByteOf(c, 3)
    ensures ByteOf((c >> 16) | (n << 16), 2) == ByteOf(n, 0)
    ensures ByteOf((c >> 16) | (n << 16), 3) == ByteOf(n, 1)
  {
  }

  lemma ShiftedBytes3(c: bv32, n: bv32)
    ensures ByteOf((c >> 24) | (n << 8), 0) == ByteOf(c, 3)
    ensures ByteOf((c >> 24) | (n << 8), 1) == ByteOf(n, 0)
    ensures ByteOf((c >> 24) | (n << 8), 2) == ByteOf(n, 1)
    ensures ByteOf((c >> 24) | (n << 8), 3) == ByteOf(n, 2)
  {
  }

  // ---------- one copy in progress ----------

  /** After `k` of the bytes have been copied, `mem` is the snapshot `m0` with
      exactly those `k` bytes moved. */
  ghost predicate Progress(mem: array<bv8>, m0: seq<bv8>, dst: nat, src: nat, k: nat)
    reads mem
  {
    && |m0| == mem.Length && dst + k <= mem.Length && src + k <= mem.Length
    && mem[..] == Moved(m0, dst, src, k)
  }

  /** The bytes still to be copied are unchanged in memory. */
  lemma Pending(mem: array<bv8>, m0: seq<bv8>, dst: nat, src: nat, k: nat, n: nat, j: nat)
    requires InBounds(mem, m0, dst, src, n) && k <= n && Progress(mem, m0, dst, src, k)
    requires src + k <= j < src + n
    ensures mem[j] == m0[j]
  {
    assert mem[j] == mem[..][j];
  }

  /** Pointers and bounds of a copy of `n` bytes: everything the copy may touch. */
  ghost predicate InBounds(mem: array<bv8>, m0: seq<bv8>, dst: nat, src: nat, n: nat) {
    && |m0| == mem.Length && mem.Length % 4 == 0
    && dst + n <= mem.Length && src + n <= mem.Length
    && ForwardSafe(dst, src, n)
  }

  /** A load of the word numbered `srcN`. The ghost bounds name the source bytes that the whole copy
      needs: a word may be loaded only if it holds at least one of them. */
  method LoadWord(mem: array<bv8>, srcN: nat, ghost lo: nat, ghost hi: nat) returns (w: bv32)
    requires 4 * srcN + 4 <= mem.Length
    requires lo < 4 * srcN + 4 && 4 * srcN < hi
    ensures ByteOf(w, 0) == mem[4 * srcN] && ByteOf(w, 1) == mem[4 * srcN + 1]
    ensures ByteOf(w, 2) == mem[4 * srcN + 2] && ByteOf(w, 3) == mem[4 * srcN + 3]
  {
    var p := 4 * srcN;
    w := Word(mem[p], mem[p + 1], mem[p + 2], mem[p + 3]);
    WordBytes(mem[p], mem[p + 1], mem[p + 2], mem[p + 3]);
  }

  /** A store to the word numbered `dstN`. */
  method StoreWord(mem: array<bv8>, dstN: nat, w: bv32)
    requires 4 * dstN + 4 <= mem.Length
    modifies mem
    ensures mem[..] == old(mem[..])[..4 * dstN] + [ByteOf(w, 0), ByteOf(w, 1), ByteOf(w, 2), ByteOf(w, 3)] + old(mem[..])[4 * dstN + 4..]
  {
    hide ByteOf;
    var p := 4 * dstN;
    mem[p], mem[p + 1], mem[p + 2], mem[p + 3] := ByteOf(w, 0), ByteOf(w, 1), ByteOf(w, 2), ByteOf(w, 3);
  }

  method CopyByte(mem: array<bv8>, dst: nat, src: nat, k: nat, ghost n: nat, ghost m0: seq<bv8>)
    requires InBounds(mem, m0, dst, src, n) && k < n
    requires Progress(mem, m0, dst, src, k)
    modifies mem
    ensures Progress(mem, m0, dst, src, k + 1)
  {
    Pending(mem, m0, dst, src, k, n, src + k);
    MovedStep(m0, dst, src, k);
    hide Moved;
    mem[dst + k] := mem[src + k];
    assert mem[..] == Moved(m0, dst, src, k)[dst + k := m0[src + k]];
  }

  lemma MovedStep(m0: seq<bv8>, dst: nat, src: nat, k: nat)
    requires dst + k < |m0| && src + k < |m0|
    ensures Moved(m0, dst, src, k + 1) == Moved(m0, dst, src, k)[dst + k := m0[src + k]]
  {
  }

  /** COPY_REMAINING: a switch whose cases fall through, one byte per case. */
  method CopyRemaining(mem: array<bv8>, dst: nat, src: nat, k0: nat, count: nat, ghost n: nat, ghost m0: seq<bv8>)
    requires InBounds(mem, m0, dst, src, n) && count < 8 && k0 + count == n
    requires Progress(mem, m0, dst, src, k0)
    modifies mem
    ensures Progress(mem, m0, dst, src, n)
  {
    hide Moved;
    var k := k0;
    if count >= 7 { CopyByte(mem, dst, src, k, n, m0); k := k + 1; }
    if count >= 6 { CopyByte(mem, dst, src, k, n, m0); k := k + 1; }
    if count >= 5 { CopyByte(mem, dst, src, k, n, m0); k := k + 1; }
    if count >= 4 { CopyByte(mem, dst, src, k, n, m0); k := k + 1; }
    if count >= 3 { CopyByte(mem, dst, src, k, n, m0); k := k + 1; }
    if count >= 2 { CopyByte(mem, dst, src, k, n, m0); k := k + 1; }
    if count >= 1 { CopyByte(mem, dst, src, k, n, m0); k := k + 1; }
  }

  /** Storing the four bytes that the source has at `k` advances the copy by a word. */
  method StoreProgress(mem: array<bv8>, dst: nat, src: nat, dstN: nat, k: nat, w: bv32, ghost n: nat, ghost m0: seq<bv8>)
    requires InBounds(mem, m0, dst, src, n) && k + 4 <= n && dst + k == 4 * dstN
    requires Progress(mem, m0, dst, src, k)
    requires ByteOf(w, 0) == m0[src + k] && ByteOf(w, 1) == m0[src + k + 1]
    requires ByteOf(w, 2) == m0[src + k + 2] && ByteOf(w, 3) == m0[src + k + 3]
    modifies mem
    ensures Progress(mem, m0, dst, src, k + 4)
  {
    hide ByteOf, Moved;
    assert m0[src + k..src + k + 4] == [ByteOf(w, 0), ByteOf(w, 1), ByteOf(w, 2), ByteOf(w, 3)];
    StoreWord(mem, dstN, w);
    MovedExtend(m0, dst, src, k, 4);
  }

  // ---------- source and target equally aligned ----------

  /** CP: one aligned word. */
  method CopyWord(mem: array<bv8>, dst: nat, src: nat, dstN: nat, srcN: nat, k: nat, ghost n: nat, ghost m0: seq<bv8>)
    requires InBounds(mem, m0, dst, src, n) && k + 4 <= n
    requires dst + k == 4 * dstN && src + k == 4 * srcN
    requires Progress(mem, m0, dst, src, k)
    modifies mem
    ensures Progress(mem, m0, dst, src, k + 4)
  {
    hide ByteOf;
    var w := LoadWord(mem, srcN, src, src + n);
    Pending(mem, m0, dst, src, k, n, src + k);
    Pending(mem, m0, dst, src, k, n, src + k + 1);
    Pending(mem, m0, dst, src, k, n, src + k + 2);
    Pending(mem, m0, dst, src, k, n, src + k + 3);
    StoreProgress(mem, dst, src, dstN, k, w, n, m0);
  }

  /** The body of the unrolled loop. */
  method CopyEightWords(mem: array<bv8>, dst: nat, src: nat, dstN: nat, srcN: nat, k: nat, ghost n: nat, ghost m0: seq<bv8>)
    requires InBounds(mem, m0, dst, src, n) && k + 32 <= n
    requires dst + k == 4 * dstN && src + k == 4 * srcN
    requires Progress(mem, m0, dst, src, k)
    modifies mem
    ensures Progress(mem, m0, dst, src, k + 32)
  {
    hide Moved;
    CopyWord(mem, dst, src, dstN, srcN, k, n, m0);
    CopyWord(mem, dst, src, dstN + 1, srcN + 1, k + 4, n, m0);
    CopyWord(mem, dst, src, dstN + 2, srcN + 2, k + 8, n, m0);
    CopyWord(mem, dst, src, dstN + 3, srcN + 3, k + 12, n, m0);
    CopyWord(mem, dst, src, dstN + 4, srcN + 4, k + 16, n, m0);
    CopyWord(mem, dst, src, dstN + 5, srcN + 5, k + 20, n, m0);
    CopyWord(mem, dst, src, dstN + 6, srcN + 6, k + 24, n, m0);
    CopyWord(mem, dst, src, dstN + 7, srcN + 7, k + 28, n, m0);
  }

  /** A count as words and bytes left over. */
  lemma Quartered(x: nat)
    ensures x == 4 * (x / 4) + x % 4
  {
  }

  lemma Eighth(x: nat)
    requires x % 8 == 0
    ensures x == 8 * (x / 8)
  {
  }

  /** COPY_NO_SHIFT: words one at a time until the count is a multiple of eight,
      then eight at a time, then the last bytes. */
  method CopyNoShift(mem: array<bv8>, dst: nat, src: nat, k0: nat, count: nat, ghost n: nat, ghost m0: seq<bv8>)
    requires InBounds(mem, m0, dst, src, n) && k0 + count == n
    requires (dst + k0) % 4 == 0 && (src + k0) % 4 == 0
    requires Progress(mem, m0, dst, src, k0)
    modifies mem
    ensures Progress(mem, m0, dst, src, n)
  {
    hide Moved, Progress;
    var length, rest := count / 4, count % 4;
    var k: nat, dstN, srcN := k0, (dst + k0) / 4, (src + k0) / 4;
    Quartered(count);
    while length % 8 != 0
      invariant 0 <= length && k + 4 * length + rest == n && dst + k == 4 * dstN && src + k == 4 * srcN
      invariant Progress(mem, m0, dst, src, k)
    {
      CopyWord(mem, dst, src, dstN, srcN, k, n, m0);
      k, dstN, srcN := k + 4, dstN + 1, srcN + 1;
      length := length - 1;
    }
    Eighth(length);
    length := length / 8;
    while length > 0
      invariant 0 <= length && k + 32 * length + rest == n && dst + k == 4 * dstN && src + k == 4 * srcN
      invariant Progress(mem, m0, dst, src, k)
    {
      CopyEightWords(mem, dst, src, dstN, srcN, k, n, m0);
      k, dstN, srcN := k + 32, dstN + 8, srcN + 8;
      length := length - 1;
    }
    CopyRemaining(mem, dst, src, k, rest, n, m0);
  }

  // ---------- source off the word boundary by `shift` bytes ----------

  /** The carried word still holds the snapshot's bytes from position `k` to the
      end of its own word, as far as the copy needs them. */
  ghost predicate Carries(w: bv32, m0: seq<bv8>, src: nat, k: nat, n: nat, shift: nat)
    requires 1 <= shift <= 3 && src + n <= |m0|
  {
    forall i :: shift <= i < 4 && k + i - shift < n ==> ByteOf(w, i) == m0[src + k + i - shift]
  }

  /** The word numbered `srcN`, as the snapshot had it wherever the copy needs it. */
  method LoadCarry(mem: array<bv8>, dst: nat, src: nat, k: nat, srcN: nat, ghost n: nat, ghost m0: seq<bv8>) returns (w: bv32)
    requires InBounds(mem, m0, dst, src, n) && k <= n && Progress(mem, m0, dst, src, k)
    requires 4 * srcN < src + n && src + k < 4 * srcN + 4
    ensures forall i :: 0 <= i < 4 && src + k <= 4 * srcN + i < src + n ==> ByteOf(w, i) == m0[4 * srcN + i]
  {
    hide ByteOf, Moved;
    w := LoadWord(mem, srcN, src, src + n);
    forall i | 0 <= i < 4 && src + k <= 4 * srcN + i < src + n
      ensures ByteOf(w, i) == m0[4 * srcN + i]
    {
      Pending(mem, m0, dst, src, k, n, 4 * srcN + i);
    }
  }

  /** The word that holds the first byte to copy. */
  method FirstCarry(mem: array<bv8>, dst: nat, src: nat, k: nat, srcN: nat, shift: nat, ghost n: nat, ghost m0: seq<bv8>) returns (w: bv32)
    requires InBounds(mem, m0, dst, src, n) && k < n && Progress(mem, m0, dst, src, k) && 1 <= shift <= 3 && src + k == 4 * srcN + shift
    ensures Carries(w, m0, src, k, n, shift)
  {
    hide ByteOf, Moved;
    w := LoadCarry(mem, dst, src, k, srcN, n, m0);
  }

  /** CP_SH: load the next source word, merge it with the carried one, store. */
  method CopyShiftWord(mem: array<bv8>, dst: nat, src: nat, dstN: nat, srcN: nat, k: nat, shift: nat, srcWord: bv32,
                       ghost n: nat, ghost m0: seq<bv8>) returns (next: bv32)
    requires InBounds(mem, m0, dst, src, n) && k + 4 <= n && 1 <= shift <= 3
    requires dst + k == 4 * dstN && src + k + 4 == 4 * srcN + shift
    requires Progress(mem, m0, dst, src, k) && Carries(srcWord, m0, src, k, n, shift)
    modifies mem
    ensures Progress(mem, m0, dst, src, k + 4) && Carries(next, m0, src, k + 4, n, shift)
  {
    hide ByteOf, Moved, Shifted;
    next := LoadCarry(mem, dst, src, k, srcN, n, m0);
    var dstWord := Shifted(srcWord, next, shift);
    forall i | 0 <= i < 4
      ensures ByteOf(dstWord, i) == m0[src + k + i]
    {
      ShiftedBytes(srcWord, next, shift, i);
    }
    StoreProgress(mem, dst, src, dstN, k, dstWord, n, m0);
  }

  /** The body of the unrolled shifting loop. */
  method CopyShiftEightWords(mem: array<bv8>, dst: nat, src: nat, dstN: nat, srcN: nat, k: nat, shift: nat, srcWord: bv32,
                             ghost n: nat, ghost m0: seq<bv8>) returns (w: bv32)
    requires InBounds(mem, m0, dst, src, n) && k + 32 <= n && 1 <= shift <= 3
    requires dst + k == 4 * dstN && src + k + 4 == 4 * srcN + shift
    requires Progress(mem, m0, dst, src, k) && Carries(srcWord, m0, src, k, n, shift)
    modifies mem
    ensures Progress(mem, m0, dst, src, k + 32) && Carries(w, m0, src, k + 32, n, shift)
  {
    hide ByteOf, Moved, Carries;
    w := CopyShiftWord(mem, dst, src, dstN, srcN, k, shift, srcWord, n, m0);
    w := CopyShiftWord(mem, dst, src, dstN + 1, srcN + 1, k + 4, shift, w, n, m0);
    w := CopyShiftWord(mem, dst, src, dstN + 2, srcN + 2, k + 8, shift, w, n, m0);
    w := CopyShiftWord(mem, dst, src, dstN + 3, srcN + 3, k + 12, shift, w, n, m0);
    w := CopyShiftWord(mem, dst, src, dstN + 4, srcN + 4, k + 16, shift, w, n, m0);
    w := CopyShiftWord(mem, dst, src, dstN + 5, srcN + 5, k + 20, shift, w, n, m0);
    w := CopyShiftWord(mem, dst, src, dstN + 6, srcN + 6, k + 24, shift, w, n, m0);
    w := CopyShiftWord(mem, dst, src, dstN + 7, srcN + 7, k + 28, shift, w, n, m0);
  }

  /** Words one at a time until their number is a multiple of eight. */
  method CopyShiftSingles(mem: array<bv8>, dst: nat, src: nat, k0: nat, words: nat, shift: nat, first: bv32,
                          ghost rest: nat, ghost n: nat, ghost m0: seq<bv8>)
    returns (k: nat, length: nat, srcWord: bv32)
    requires InBounds(mem, m0, dst, src, n) && k0 + 4 * words + rest == n && 1 <= shift <= 3
    requires (dst + k0) % 4 == 0 && (src + k0) % 4 == shift
    requires Progress(mem, m0, dst, src, k0) && Carries(first, m0, src, k0, n, shift)
    modifies mem
    ensures length % 8 == 0 && k + 4 * length + rest == n && (dst + k) % 4 == 0 && (src + k) % 4 == shift
    ensures Progress(mem, m0, dst, src, k) && Carries(srcWord, m0, src, k, n, shift)
  {
    hide ByteOf, Moved, Carries, Progress;
    k, length, srcWord := k0, words, first;
    var dstN, srcN := (dst + k0) / 4, (src + k0) / 4 + 1;
    Quartered(src + k0);
    while length % 8 != 0
      invariant k + 4 * length + rest == n && dst + k == 4 * dstN && src + k + 4 == 4 * srcN + shift
      invariant Progress(mem, m0, dst, src, k) && Carries(srcWord, m0, src, k, n, shift)
    {
      srcWord := CopyShiftWord(mem, dst, src, dstN, srcN, k, shift, srcWord, n, m0);
      k, dstN, srcN := k + 4, dstN + 1, srcN + 1;
      length := length - 1;
    }
  }

  /** Eight words at a time. */
  method CopyShiftBlocks(mem: array<bv8>, dst: nat, src: nat, k0: nat, blocks: nat, shift: nat, first: bv32,
                         ghost rest: nat, ghost n: nat, ghost m0: seq<bv8>)
    returns (k: nat)
    requires InBounds(mem, m0, dst, src, n) && k0 + 32 * blocks + rest == n && 1 <= shift <= 3
    requires (dst + k0) % 4 == 0 && (src + k0) % 4 == shift
    requires Progress(mem, m0, dst, src, k0) && Carries(first, m0, src, k0, n, shift)
    modifies mem
    ensures k + rest == n && Progress(mem, m0, dst, src, k)
  {
    hide ByteOf, Moved, Carries, Progress;
    var length, srcWord := blocks, first;
    k := k0;
    var dstN, srcN := (dst + k0) / 4, (src + k0) / 4 + 1;
    Quartered(src + k0);
    while length > 0
      invariant 0 <= length && k + 32 * length + rest == n && dst + k == 4 * dstN && src + k + 4 == 4 * srcN + shift
      invariant Progress(mem, m0, dst, src, k) && Carries(srcWord, m0, src, k, n, shift)
    {
      srcWord := CopyShiftEightWords(mem, dst, src, dstN, srcN, k, shift, srcWord, n, m0);
      k, dstN, srcN := k + 32, dstN + 8, srcN + 8;
      length := length - 1;
    }
  }

  /** COPY_SHIFT: the source words straddle the target words by `shift` bytes. */
  method CopyShift(mem: array<bv8>, dst: nat, src: nat, k0: nat, count: nat, shift: nat, ghost n: nat, ghost m0: seq<bv8>)
    requires InBounds(mem, m0, dst, src, n) && k0 + count == n && 1 <= shift <= 3 && 1 <= count
    requires (dst + k0) % 4 == 0 && (src + k0) % 4 == shift
    requires Progress(mem, m0, dst, src, k0)
    modifies mem
    ensures Progress(mem, m0, dst, src, n)
  {
    hide ByteOf, Moved, Carries, Progress, InBounds;
    var rest := count % 4;
    Quartered(count);
    Quartered(src + k0);
    var srcWord := FirstCarry(mem, dst, src, k0, (src + k0) / 4, shift, n, m0);
    var k, length;
    k, length, srcWord := CopyShiftSingles(mem, dst, src, k0, count / 4, shift, srcWord, rest, n, m0);
    Eighth(length);
    k := CopyShiftBlocks(mem, dst, src, k, length / 8, shift, srcWord, rest, n, m0);
    CopyRemaining(mem, dst, src, k, rest, n, m0);
  }

  // ---------- memcpy and memmove ----------

  /** Byte copies until the target is on a word boundary. */
  method AlignTarget(mem: array<bv8>, dest: nat, src: nat, ghost n: nat, ghost m0: seq<bv8>) returns (k: nat)
    requires InBounds(mem, m0, dest, src, n) && 8 <= n
    requires Progress(mem, m0, dest, src, 0)
    modifies mem
    ensures k <= 3 && (dest + k) % 4 == 0
    ensures Progress(mem, m0, dest, src, k)
  {
    hide Moved;
    k := 0;
    while (dest + k) % 4 != 0
      invariant k + dest % 4 <= 4 && (dest % 4 == 0 ==> k == 0)
      invariant Progress(mem, m0, dest, src, k)
      decreases 4 - k
    {
      CopyByte(mem, dest, src, k, n, m0);
      k := k + 1;
    }
  }

  /** `memcpy`: the target holds the snapshot of the source and nothing else
      changed, for every length and alignment of a copy that may run forward. */
  method Memcpy(mem: array<bv8>, dest: nat, src: nat, count: nat) returns (r: nat)
    requires mem.Length % 4 == 0 && dest + count <= mem.Length && src + count <= mem.Length
    requires ForwardSafe(dest, src, count)
    modifies mem
    ensures mem[..] == Moved(old(mem[..]), dest, src, count)
    ensures r == dest
  {
    ghost var m0 := mem[..];
    assert mem[..] == Moved(m0, dest, src, 0);
    hide Moved;
    if count < 8 {
      CopyRemaining(mem, dest, src, 0, count, count, m0);
      return dest;
    }
    var k := AlignTarget(mem, dest, src, count, m0);
    var shift := (src + k) % 4;
    if shift == 0 {
      CopyNoShift(mem, dest, src, k, count - k, count, m0);
    } else {
      CopyShift(mem, dest, src, k, count - k, shift, count, m0);
    }
    return dest;
  }

  /** `memmove`: the target holds the snapshot of the source and nothing else
      changed, for every length, alignment and overlap. */
  method Memmove(mem: array<bv8>, dest: nat, src: nat, c: nat) returns (r: nat)
    requires mem.Length % 4 == 0 && dest + c <= mem.Length && src + c <= mem.Length
    modifies mem
    ensures mem[..] == Moved(old(mem[..]), dest, src, c)
    ensures r == dest
  {
    ghost var m0 := mem[..];
    if c == 0 {
      assert mem[..] == Moved(m0, dest, src, 0);
      return dest;
    }
    if dest <= src {
      r := Memcpy(mem, dest, src, c);
      return r;
    }
    var n := c;
    assert mem[..] == Moved(m0, dest + n, src + n, 0);
    while n > 0
      invariant 0 <= n <= c
      invariant mem[..] == Moved(m0, dest + n, src + n, c - n)
    {
      n := n - 1;
      CopyByteDown(mem, dest, src, n, c, m0);
    }
    return dest;
  }

  /** One step of the backward copy: byte `n`, with the `c - n - 1` above it done. */
  method CopyByteDown(mem: array<bv8>, dest: nat, src: nat, n: nat, ghost c: nat, ghost m0: seq<bv8>)
    requires src < dest && n < c && |m0| == mem.Length && dest + c <= mem.Length
    requires mem[..] == Moved(m0, dest + n + 1, src + n + 1, c - n - 1)
    modifies mem
    ensures mem[..] == Moved(m0, dest + n, src + n, c - n)
  {
    ghost var before := mem[..];
    assert before[src + n] == m0[src + n];
    mem[dest + n] := mem[src + n];
    assert mem[..] == before[..dest + n] + [m0[src + n]] + before[dest + n + 1..];
    assert before[..dest + n] == m0[..dest + n];
    assert before[dest + n + 1..] == m0[src + n + 1..src + c] + m0[dest + c..];
    assert m0[src + n..src + c] == [m0[src + n]] + m0[src + n + 1..src + c];
  }
}
