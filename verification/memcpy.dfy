/**
 * `memcpy` from rsqrt_fast.c: a byte-by-byte copy through two advancing
 * pointers. Memory is one array of bytes and a pointer is an index into it,
 * so the source and destination may be the same array.
 */
module MemCopy {
  import opened Word

  /**
   * Memory after copying n bytes from src to dest: the destination range
   * holds the source bytes, and every other byte is as it was.
   */
  function CopyOf(m: seq<byte>, dest: nat, src: nat, n: nat): (r: seq<byte>)
    requires dest + n <= |m| && src + n <= |m|
    ensures |r| == |m|
  {
    m[..dest] + m[src..src + n] + m[dest + n..]
  }

  /** Byte by byte: the destination holds the source bytes, and nothing else changes. */
  lemma CopyContents(m: seq<byte>, dest: nat, src: nat, n: nat)
    requires dest + n <= |m| && src + n <= |m|
    ensures forall i :: dest <= i < dest + n ==> CopyOf(m, dest, src, n)[i] == m[src + (i - dest)]
    ensures forall i :: 0 <= i < |m| && !(dest <= i < dest + n) ==> CopyOf(m, dest, src, n)[i] == m[i]
  {
  }

  /** The ranges [dest, dest + n) and [src, src + n) do not overlap. */
  predicate Disjoint(dest: nat, src: nat, n: nat) {
    dest + n <= src || src + n <= dest
  }

  /**
   * `memcpy(dest, src, n)`: returns dest, and memory becomes CopyOf the old
   * memory. As in section 7.24.2.1 of ISO C11, the ranges must not overlap.
   */
  method Memcpy(mem: array<byte>, dest: nat, src: nat, n: u32) returns (r: nat)
    requires dest + n <= mem.Length && src + n <= mem.Length
    requires Disjoint(dest, src, n)
    modifies mem
    ensures r == dest
    ensures mem[..] == CopyOf(old(mem[..]), dest, src, n)
  {
    ghost var before := mem[..];
    var d: nat, s: nat, count: u32 := dest, src, n;
    while count > 0
      invariant count <= n && d == dest + (n - count) && s == src + (n - count)
      invariant forall i :: dest <= i < d ==> mem[i] == before[src + (i - dest)]
      invariant forall i :: 0 <= i < mem.Length && !(dest <= i < d) ==> mem[i] == before[i]
      decreases count
    {
      mem[d] := mem[s];
      d := d + 1;
      s := s + 1;
      count := count - 1;
    }
    CopyContents(before, dest, src, n);
    assert mem[..] == CopyOf(before, dest, src, n);
    r := dest;
  }

  /** Copying between disjoint ranges a second time changes nothing. */
  lemma CopyIdempotent(m: seq<byte>, dest: nat, src: nat, n: nat)
    requires dest + n <= |m| && src + n <= |m| && Disjoint(dest, src, n)
    ensures CopyOf(CopyOf(m, dest, src, n), dest, src, n) == CopyOf(m, dest, src, n)
  {
    var once := CopyOf(m, dest, src, n);
    var twice := CopyOf(once, dest, src, n);
    CopyContents(m, dest, src, n);
    CopyContents(once, dest, src, n);
    forall i | 0 <= i < |m|
      ensures twice[i] == once[i]
    {
      if dest <= i < dest + n {
        assert twice[i] == once[src + (i - dest)];
      }
    }
  }
}
