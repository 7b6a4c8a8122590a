/** The memory and string routines of the repository's own libc that the kernel
    modules rest on (libc/src/string.c). */
module LibcString {
  import opened Arithmetic

  // C strings

  /** A C string in memory: some byte of `str` is the terminating NUL. */
  predicate IsCString(str: seq<bv8>) {
    0 in str
  }

  function StrLen(str: seq<bv8>): (n: nat)
    requires IsCString(str)
    ensures n < |str| && str[n] == 0
    ensures forall i :: 0 <= i < n ==> str[i] != 0
  {
    if str[0] == 0 then 0 else 1 + StrLen(str[1..])
  }

  lemma {:induction false} StrLenIs(str: seq<bv8>, n: nat)
    requires n < |str| && str[n] == 0 && forall i :: 0 <= i < n ==> str[i] != 0
    ensures IsCString(str) && StrLen(str) == n
    decreases n
  {
    if 0 < n {
      StrLenIs(str[1..], n - 1);
    }
  }

  /** The bytes before the terminating NUL. */
  function Text(str: seq<bv8>): seq<bv8>
    requires IsCString(str)
  {
    str[..StrLen(str)]
  }

  /** The text of a string is what stands before its first NUL, whatever comes after. */
  lemma TextTerminated(text: seq<bv8>, rest: seq<bv8>)
    requires 0 !in text
    ensures IsCString(text + [0] + rest) && Text(text + [0] + rest) == text
  {
    var str := text + [0] + rest;
    assert str[..|text|] == text;
    StrLenIs(str, |text|);
  }

  // memset

  method Memset(buff: array<bv8>, c: bv8, n: nat)
    requires n <= buff.Length
    modifies buff
    ensures forall i :: 0 <= i < n ==> buff[i] == c
    ensures forall i :: n <= i < buff.Length ==> buff[i] == old(buff[i])
  {
    var cur: nat, left: nat := 0, n;
    while left != 0
      invariant cur + left == n
      invariant forall i :: 0 <= i < cur ==> buff[i] == c
      invariant forall i :: cur <= i < buff.Length ==> buff[i] == old(buff[i])
    {
      buff[cur] := c;
      cur := cur + 1;
      left := left - 1;
    }
  }

  // memcpy within one memory, where the two ranges may overlap

  /** What copying one byte at a time, first byte first, leaves in memory `m`. */
  function ForwardCopy(m: seq<bv8>, dst: nat, src: nat, n: nat): (r: seq<bv8>)
    requires dst + n <= |m| && src + n <= |m|
    ensures |r| == |m|
    decreases n
  {
    if n == 0 then m
    else ForwardCopy(m[dst := m[src]], dst + 1, src + 1, n - 1)
  }

  /** Memory `m` with `n` bytes at `dst` replaced by the bytes that were at `src`. */
  function SnapshotCopy(m: seq<bv8>, dst: nat, src: nat, n: nat): (r: seq<bv8>)
    requires dst + n <= |m| && src + n <= |m|
  {
    m[..dst] + m[src..src + n] + m[dst + n..]
  }

  method Memcpy(mem: array<bv8>, dst: nat, src: nat, n: nat)
    requires dst + n <= mem.Length && src + n <= mem.Length
    modifies mem
    ensures mem[..] == ForwardCopy(old(mem[..]), dst, src, n)
  {
    var d: nat, s: nat, left: nat := dst, src, n;
    while left != 0
      invariant d + left == dst + n && s + left == src + n
      invariant ForwardCopy(mem[..], d, s, left) == ForwardCopy(old(mem[..]), dst, src, n)
    {
      ghost var before := mem[..];
      mem[d] := mem[s];
      assert mem[..] == before[d := before[s]];
      d := d + 1;
      s := s + 1;
      left := left - 1;
    }
  }

  /** Where a forward copy takes the byte for offset `i` from: below the source it is
      offset `i` of the source; above it, the first `dst - src` bytes repeat. */
  function SourceOffset(dst: nat, src: nat, i: nat): nat {
    if dst <= src then i else i % (dst - src)
  }

  /** Stepping back by one inside a repeating pattern of length `gap`. */
  lemma OffsetStep(gap: nat, i: nat)
    requires 0 < gap && 0 < i
    ensures 1 + (i - 1) % gap == if i % gap == 0 then gap else i % gap
  {
    var q, r := (i - 1) / gap, (i - 1) % gap;
    if r + 1 == gap {
      DivModUnique(i, gap, q + 1, 0);
    } else {
      DivModUnique(i, gap, q, r + 1);
    }
  }

  lemma {:induction false} ForwardCopyAt(m: seq<bv8>, dst: nat, src: nat, n: nat, k: nat)
    requires dst + n <= |m| && src + n <= |m| && k < |m|
    ensures dst <= k < dst + n ==> src + SourceOffset(dst, src, k - dst) < |m|
    ensures ForwardCopy(m, dst, src, n)[k]
         == if dst <= k < dst + n then m[src + SourceOffset(dst, src, k - dst)] else m[k]
    decreases n
  {
    if 0 < n {
      var m' := m[dst := m[src]];
      ForwardCopyAt(m', dst + 1, src + 1, n - 1, k);
      if dst < k < dst + n && src < dst {
        OffsetStep(dst - src, k - dst);
      }
    }
  }

  /** A forward copy whose destination does not begin strictly inside the source
      is a copy of a snapshot. */
  lemma CopyIsSnapshot(m: seq<bv8>, dst: nat, src: nat, n: nat)
    requires dst + n <= |m| && src + n <= |m|
    requires dst <= src || src + n <= dst
    ensures ForwardCopy(m, dst, src, n) == SnapshotCopy(m, dst, src, n)
  {
    forall k: nat | k < |m| ensures ForwardCopy(m, dst, src, n)[k] == SnapshotCopy(m, dst, src, n)[k] {
      ForwardCopyAt(m, dst, src, n, k);
      if src < dst <= k < dst + n {
        DivModUnique(k - dst, dst - src, 0, k - dst);
      }
    }
  }

  /** Otherwise there is a memory for which it is not: the byte at `dst` is
      overwritten before it is read. */
  lemma CopyIsNotSnapshot(size: nat, dst: nat, src: nat, n: nat) returns (m: seq<bv8>)
    requires dst + n <= size && src < dst < src + n
    ensures |m| == size
    ensures ForwardCopy(m, dst, src, n) != SnapshotCopy(m, dst, src, n)
  {
    m := seq(size, i => if i == dst then 1 as bv8 else 0);
    var k := dst + (dst - src);
    ForwardCopyAt(m, dst, src, n, k);
    DivModUnique(k - dst, dst - src, 1, 0);
    assert SnapshotCopy(m, dst, src, n)[k] == m[src..src + n][dst - src] == m[dst];
  }

  /** The forward loop copies a snapshot, whatever the memory holds, exactly when
      the destination does not begin strictly inside the source. */
  lemma CopyIsSnapshotIff(size: nat, dst: nat, src: nat, n: nat)
    requires dst + n <= size && src + n <= size
    ensures (forall m: seq<bv8> :: |m| == size ==> ForwardCopy(m, dst, src, n) == SnapshotCopy(m, dst, src, n))
        <==> dst <= src || src + n <= dst
  {
    if dst <= src || src + n <= dst {
      forall m: seq<bv8> | |m| == size
        ensures ForwardCopy(m, dst, src, n) == SnapshotCopy(m, dst, src, n)
      {
        CopyIsSnapshot(m, dst, src, n);
      }
    } else {
      var m := CopyIsNotSnapshot(size, dst, src, n);
    }
  }
}
