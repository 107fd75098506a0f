/** The overlap-safe copy of libs/string.c; both ranges lie in one memory. */
module Memmove {
  type byte = x: int | 0 <= x < 256

  /** The memory after `n` bytes were copied from `src` to `dst` as if through a buffer. */
  function Moved(mem: seq<byte>, dst: nat, src: nat, n: nat): seq<byte>
    requires dst + n <= |mem| && src + n <= |mem|
  {
    seq(|mem|, i requires 0 <= i < |mem| =>
      if dst <= i < dst + n then mem[src + (i - dst)] else mem[i])
  }

  /** The same as one splice. */
  lemma MovedIsSplice(mem: seq<byte>, dst: nat, src: nat, n: nat)
    requires dst + n <= |mem| && src + n <= |mem|
    ensures Moved(mem, dst, src, n) == mem[..dst] + mem[src..src + n] + mem[dst + n..]
  {
  }

  /** A move grows downwards by one byte while its source byte is still intact ... */
  lemma GrowsDown(was: seq<byte>, d: nat, s: nat, k: nat)
    requires d + k <= |was| && s + k <= |was| && 0 < s < d
    ensures var now := Moved(was, d, s, k);
      now[d - 1 := now[s - 1]] == Moved(was, d - 1, s - 1, k + 1)
  {
  }

  /** ... and upwards. */
  lemma GrowsUp(was: seq<byte>, dst: nat, src: nat, k: nat)
    requires dst + k < |was| && src + k < |was| && (dst <= src || src + k < dst)
    ensures var now := Moved(was, dst, src, k);
      now[dst + k := now[src + k]] == Moved(was, dst, src, k + 1)
  {
  }

  method CopyByte(mem: array<byte>, d: nat, s: nat)
    requires d < mem.Length && s < mem.Length
    modifies mem
    ensures mem[..] == old(mem[..])[d := old(mem[..])[s]]
  {
    mem[d] := mem[s];
  }

  /** Both branches give the buffered copy, so every byte outside the destination is
      unchanged and the destination holds what the source held, for every overlap. */
  method MemMove(mem: array<byte>, dst: nat, src: nat, n: nat)
    requires dst + n <= mem.Length && src + n <= mem.Length
    modifies mem
    ensures mem[..] == Moved(old(mem[..]), dst, src, n)
    ensures mem[dst..dst + n] == old(mem[..])[src..src + n]
  {
    MovedIsSplice(mem[..], dst, src, n);
    if src < dst && src + n > dst {
      MoveDown(mem, dst, src, n);
    } else {
      MoveUp(mem, dst, src, n);
    }
  }

  /** The loop of the first branch, from the last byte to the first. */
  method MoveDown(mem: array<byte>, dst: nat, src: nat, n: nat)
    requires dst + n <= mem.Length && src < dst
    modifies mem
    ensures mem[..] == Moved(old(mem[..]), dst, src, n)
  {
    ghost var was := mem[..];
    var s, d, left := src + n, dst + n, n;
    while left > 0
      invariant 0 <= left <= n && s == src + left && d == dst + left
      invariant mem[..] == Moved(was, d, s, n - left)
    {
      GrowsDown(was, d, s, n - left);
      left := left - 1;
      d, s := d - 1, s - 1;
      CopyByte(mem, d, s);
    }
  }

  /** The loop of the other branch, from the first byte to the last. */
  method MoveUp(mem: array<byte>, dst: nat, src: nat, n: nat)
    requires dst + n <= mem.Length && src + n <= mem.Length && (dst <= src || src + n <= dst)
    modifies mem
    ensures mem[..] == Moved(old(mem[..]), dst, src, n)
  {
    ghost var was := mem[..];
    var s, d, left := src, dst, n;
    while left > 0
      invariant 0 <= left <= n && s == src + (n - left) && d == dst + (n - left)
      invariant mem[..] == Moved(was, dst, src, n - left)
    {
      GrowsUp(was, dst, src, n - left);
      left := left - 1;
      CopyByte(mem, d, s);
      d, s := d + 1, s + 1;
    }
  }
}
