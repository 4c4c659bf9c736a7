/** Copying between overlapping ranges of one memory. */
module Memmove {
  import opened Machine

  /** The memory with the n bytes at `src` put at `dest`. */
  function Moved(mem: seq<Byte>, dest: nat, src: nat, n: nat): seq<Byte>
    requires dest + n <= |mem| && src + n <= |mem|
  {
    mem[..dest] + mem[src..src + n] + mem[dest + n..]
  }

  // ---- the two directions ----

  /** The first n steps of a forward copy. */
  function Forward(mem: seq<Byte>, dest: nat, src: nat, n: nat): (r: seq<Byte>)
    requires dest + n <= |mem| && src + n <= |mem|
    ensures |r| == |mem|
  {
    if n == 0 then mem
    else
      var before := Forward(mem, dest, src, n - 1);
      before[dest + n - 1 := before[src + n - 1]]
  }

  /** The first n steps of a backward copy of `size` bytes. */
  function Backward(mem: seq<Byte>, dest: nat, src: nat, size: nat, n: nat): (r: seq<Byte>)
    requires n <= size && dest + size <= |mem| && src + size <= |mem|
    ensures |r| == |mem|
  {
    if n == 0 then mem
    else
      var before := Backward(mem, dest, src, size, n - 1);
      before[dest + size - n := before[src + size - n]]
  }

  /** A forward copy to a lower or a separate place reads only bytes it has not written yet. */
  lemma {:induction false} ForwardAt(mem: seq<Byte>, dest: nat, src: nat, n: nat, k: nat)
    requires dest + n <= |mem| && src + n <= |mem| && k < |mem|
    requires dest <= src || src + n <= dest
    ensures Forward(mem, dest, src, n)[k] == if dest <= k < dest + n then mem[src + (k - dest)] else mem[k]
    decreases n
  {
    if n != 0 {
      ForwardAt(mem, dest, src, n - 1, k);
      ForwardAt(mem, dest, src, n - 1, src + n - 1);
    }
  }

  /** And a backward copy to a higher or a separate place. */
  lemma {:induction false} BackwardAt(mem: seq<Byte>, dest: nat, src: nat, size: nat, n: nat, k: nat)
    requires n <= size && dest + size <= |mem| && src + size <= |mem| && k < |mem|
    requires src <= dest || dest + size <= src
    ensures Backward(mem, dest, src, size, n)[k] ==
      if dest + size - n <= k < dest + size then mem[src + (k - dest)] else mem[k]
    decreases n
  {
    if n != 0 {
      BackwardAt(mem, dest, src, size, n - 1, k);
      BackwardAt(mem, dest, src, size, n - 1, src + size - n);
    }
  }

  lemma {:induction false} ForwardMoves(mem: seq<Byte>, dest: nat, src: nat, size: nat)
    requires dest + size <= |mem| && src + size <= |mem|
    requires dest <= src || src + size <= dest
    ensures Forward(mem, dest, src, size) == Moved(mem, dest, src, size)
  {
    forall k | 0 <= k < |mem| ensures Forward(mem, dest, src, size)[k] == Moved(mem, dest, src, size)[k] {
      ForwardAt(mem, dest, src, size, k);
    }
  }

  lemma {:induction false} BackwardMoves(mem: seq<Byte>, dest: nat, src: nat, size: nat)
    requires dest + size <= |mem| && src + size <= |mem|
    requires src <= dest || dest + size <= src
    ensures Backward(mem, dest, src, size, size) == Moved(mem, dest, src, size)
  {
    forall k | 0 <= k < |mem| ensures Backward(mem, dest, src, size, size)[k] == Moved(mem, dest, src, size)[k] {
      BackwardAt(mem, dest, src, size, size, k);
    }
  }

  /** Later steps of a forward copy leave byte k alone unless they write it. */
  lemma {:induction false} ForwardKeeps(mem: seq<Byte>, dest: nat, src: nat, m: nat, n: nat, k: nat)
    requires m <= n && dest + n <= |mem| && src + n <= |mem| && k < |mem|
    requires k < dest + m || dest + n <= k
    ensures Forward(mem, dest, src, n)[k] == Forward(mem, dest, src, m)[k]
    decreases n
  {
    if m < n {
      ForwardKeeps(mem, dest, src, m, n - 1, k);
    }
  }

  lemma {:induction false} BackwardKeeps(mem: seq<Byte>, dest: nat, src: nat, size: nat, m: nat, n: nat, k: nat)
    requires m <= n <= size && dest + size <= |mem| && src + size <= |mem| && k < |mem|
    requires k < dest + size - n || dest + size - m <= k
    ensures Backward(mem, dest, src, size, n)[k] == Backward(mem, dest, src, size, m)[k]
    decreases n
  {
    if m < n {
      BackwardKeeps(mem, dest, src, size, m, n - 1, k);
    }
  }

  /**
   Into an overlap from below, a forward copy is wrong as soon as the first bytes of the two ranges differ: it reads
   back the byte it wrote first.
   */
  lemma {:induction false} ForwardSpoilsOverlap(mem: seq<Byte>, dest: nat, src: nat, size: nat)
    requires dest + size <= |mem| && src < dest < src + size && mem[src] != mem[dest]
    ensures Forward(mem, dest, src, size) != Moved(mem, dest, src, size)
  {
    var gap := dest - src;
    ForwardKeeps(mem, dest, src, gap + 1, size, dest + gap);
    ForwardKeeps(mem, dest, src, 1, gap, dest);
    assert Forward(mem, dest, src, size)[dest + gap] == mem[src];
    assert Moved(mem, dest, src, size)[dest + gap] == mem[dest];
  }

  /** Into an overlap from above, a backward copy is wrong as soon as the last bytes of the two ranges differ. */
  lemma {:induction false} BackwardSpoilsOverlap(mem: seq<Byte>, dest: nat, src: nat, size: nat)
    requires src + size <= |mem| && dest < src < dest + size && mem[src + size - 1] != mem[dest + size - 1]
    ensures Backward(mem, dest, src, size, size) != Moved(mem, dest, src, size)
  {
    var gap := src - dest;
    var k := dest + size - 1 - gap;
    BackwardKeeps(mem, dest, src, size, gap + 1, size, k);
    BackwardKeeps(mem, dest, src, size, 1, gap, dest + size - 1);
    assert Backward(mem, dest, src, size, size)[k] == mem[src + size - 1];
    assert Moved(mem, dest, src, size)[k] == mem[src + (k - dest)] == mem[dest + size - 1];
  }

  /** Copies forward when the destination is lower, backward otherwise, and so moves the bytes whatever the overlap. */
  method Memmove(mem: array<Byte>, dest: nat, src: nat, size: nat) returns (r: nat)
    requires dest + size <= mem.Length && src + size <= mem.Length
    modifies mem
    ensures mem[..] == Moved(old(mem[..]), dest, src, size) && r == dest
  {
    ghost var was := mem[..];
    if dest < src {
      for i := 0 to size
        invariant mem[..] == Forward(was, dest, src, i)
      {
        mem[dest + i] := mem[src + i];
      }
      ForwardMoves(was, dest, src, size);
    } else {
      for i := size downto 0
        invariant mem[..] == Backward(was, dest, src, size, size - i)
      {
        mem[dest + i] := mem[src + i];
      }
      BackwardMoves(was, dest, src, size);
    }
    return dest;
  }
}
