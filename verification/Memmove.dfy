/** memcpy and memmove, src/lib/libc/memcpy.c and src/lib/libc/memmove.c, on one flat memory
    of bytes in which the two regions may overlap in any way. */
module Memmove {
  import opened Basics
  import opened Codec

  const LONG: nat := 4

  /** Memory after the `len` bytes at `src` have been put at `dst`. */
  function Moved(m: seq<Byte>, dst: nat, src: nat, len: nat): (r: seq<Byte>)
    requires dst + len <= |m| && src + len <= |m|
    ensures |r| == |m|
  {
    m[..dst] + m[src..src + len] + m[dst + len..]
  }

  /** Byte by byte: the destination holds what the source held, and the rest is as it was. */
  lemma MovedAt(m: seq<Byte>, dst: nat, src: nat, len: nat, k: nat)
    requires dst + len <= |m| && src + len <= |m| && k < |m|
    ensures Moved(m, dst, src, len)[k] == if dst <= k < dst + len then m[src + (k - dst)] else m[k]
  {
  }

  predicate Aligned(dst: nat, src: nat, len: nat) {
    dst % LONG == 0 && src % LONG == 0 && len % LONG == 0
  }

  /** One long is loaded and then stored. */
  method CopyLong(mem: array<Byte>, d: nat, s: nat)
    requires d + LONG <= mem.Length && s + LONG <= mem.Length
    modifies mem
    ensures mem[..] == Moved(old(mem[..]), d, s, LONG)
  {
    var w := mem[s..s + LONG];
    mem[d], mem[d + 1], mem[d + 2], mem[d + 3] := w[0], w[1], w[2], w[3];
    forall k: nat | k < mem.Length
      ensures mem[..][k] == Moved(old(mem[..]), d, s, LONG)[k]
    {
      MovedAt(old(mem[..]), d, s, LONG, k);
    }
  }

  method CopyByte(mem: array<Byte>, d: nat, s: nat)
    requires d < mem.Length && s < mem.Length
    modifies mem
    ensures mem[..] == Moved(old(mem[..]), d, s, 1)
  {
    mem[d] := mem[s];
  }

  /** Which byte of the source an upward copy puts at place `j` of the destination: its own, or,
      when the destination begins inside the source, the bytes before it over and over. */
  function Arrives(dst: nat, src: nat, j: nat): (i: nat)
    ensures i <= j && (src < dst ==> src + i < dst)
  {
    if src < dst then j % (dst - src) else j
  }

  /** Memory after an upward copy. */
  function Smeared(m: seq<Byte>, dst: nat, src: nat, len: nat): (r: seq<Byte>)
    requires dst + len <= |m| && src + len <= |m|
    ensures |r| == |m|
  {
    seq(|m|, k requires 0 <= k < |m| => if dst <= k < dst + len then m[src + Arrives(dst, src, k - dst)] else m[k])
  }

  lemma SmearedAt(m: seq<Byte>, dst: nat, src: nat, len: nat, k: nat)
    requires dst + len <= |m| && src + len <= |m| && k < |m|
    ensures Smeared(m, dst, src, len)[k] == if dst <= k < dst + len then m[src + Arrives(dst, src, k - dst)] else m[k]
  {
  }

  /** The pattern repeats. */
  lemma ArrivesAgain(dst: nat, src: nat, j: nat)
    requires src < dst && j >= dst - src
    ensures Arrives(dst, src, j) == Arrives(dst, src, j - (dst - src))
  {
    var d := dst - src;
    var q, r := (j - d) / d, (j - d) % d;
    assert j - d == q * d + r;
    MulStep(q, d);
    ModUnique(j, d, q + 1, r);
  }

  lemma ArrivesFirst(dst: nat, src: nat, j: nat)
    requires src < dst ==> j < dst - src
    ensures Arrives(dst, src, j) == j
  {
    if src < dst { Wrap(j, dst - src); }
  }

  /** Copying the next `n` bytes upwards, when they are read before any of them is written. */
  lemma SmearedUp(m: seq<Byte>, dst: nat, src: nat, done: nat, n: nat)
    requires dst + done + n <= |m| && src + done + n <= |m| && (src < dst ==> src + n <= dst)
    ensures Moved(Smeared(m, dst, src, done), dst + done, src + done, n) == Smeared(m, dst, src, done + n)
  {
    hide Moved, Smeared, Arrives;
    var a := Smeared(m, dst, src, done);
    var b, c := Moved(a, dst + done, src + done, n), Smeared(m, dst, src, done + n);
    forall k: nat | k < |m|
      ensures b[k] == c[k]
    {
      SmearedAt(m, dst, src, done, k);
      MovedAt(a, dst + done, src + done, n, k);
      SmearedAt(m, dst, src, done + n, k);
      if dst + done <= k < dst + done + n {
        var j := k - dst;
        SmearedAt(m, dst, src, done, src + j);
        if src < dst && dst <= src + j { ArrivesAgain(dst, src, j); } else { ArrivesFirst(dst, src, j); }
      }
    }
  }

  /** The bytes at `src` repeat with period `d`. */
  predicate Periodic(m: seq<Byte>, src: nat, len: nat, d: nat)
    requires src + len <= |m|
  {
    forall k: nat :: src + d <= k < src + len ==> m[k] == m[k - d]
  }

  /** An upward copy is a move just when the destination does not begin inside the source, or the
      source repeats with the distance between them. */
  lemma SmearedMoves(m: seq<Byte>, dst: nat, src: nat, len: nat)
    requires dst + len <= |m| && src + len <= |m|
    ensures Smeared(m, dst, src, len) == Moved(m, dst, src, len) <==>
      dst <= src || src + len <= dst || Periodic(m, src, len, dst - src)
  {
    hide Moved, Smeared;
    var a, b := Smeared(m, dst, src, len), Moved(m, dst, src, len);
    if a == b && src < dst {
      forall k: nat | dst <= k < src + len
        ensures m[k] == m[k - (dst - src)]
      {
        Told(m, dst, src, len, k - src);
      }
    } else if dst <= src || src + len <= dst || Periodic(m, src, len, dst - src) {
      forall k: nat | k < |m|
        ensures a[k] == b[k]
      {
        SmearedAt(m, dst, src, len, k);
        MovedAt(m, dst, src, len, k);
        if dst <= k < dst + len { Repeats(m, dst, src, len, k - dst); }
      }
    }
  }

  /** A copy that was a move tells that the source repeats. */
  lemma Told(m: seq<Byte>, dst: nat, src: nat, len: nat, j: nat)
    requires dst + len <= |m| && src + len <= |m| && src < dst && dst - src <= j < len
    requires Smeared(m, dst, src, len) == Moved(m, dst, src, len)
    ensures m[src + j] == m[src + (j - (dst - src))]
  {
    hide Moved, Smeared, Arrives;
    var i := j - (dst - src);
    ArrivesAgain(dst, src, j);
    SmearedAt(m, dst, src, len, dst + j);
    MovedAt(m, dst, src, len, dst + j);
    SmearedAt(m, dst, src, len, dst + i);
    MovedAt(m, dst, src, len, dst + i);
  }

  lemma {:induction false} Repeats(m: seq<Byte>, dst: nat, src: nat, len: nat, j: nat)
    requires src + len <= |m| && j < len
    requires dst <= src || src + len <= dst || Periodic(m, src, len, dst - src)
    ensures m[src + Arrives(dst, src, j)] == m[src + j]
  {
    hide Arrives;
    if src < dst && dst - src <= j {
      ArrivesAgain(dst, src, j);
      Repeats(m, dst, src, len, j - (dst - src));
      assert m[src + j] == m[src + j - (dst - src)];
    } else {
      ArrivesFirst(dst, src, j);
    }
  }

  /** Copying the `n` bytes below `top`, when everything above has been written. */
  lemma MovedDown(m: seq<Byte>, dst: nat, src: nat, top: nat, len: nat, n: nat)
    requires n <= top <= len && dst + len <= |m| && src + len <= |m| && src <= dst
    ensures Moved(Moved(m, dst + top, src + top, len - top), dst + (top - n), src + (top - n), n) ==
      Moved(m, dst + (top - n), src + (top - n), len - (top - n))
  {
    hide Moved;
    var low := top - n;
    var a := Moved(m, dst + top, src + top, len - top);
    var b, c := Moved(a, dst + low, src + low, n), Moved(m, dst + low, src + low, len - low);
    forall k: nat | k < |m|
      ensures b[k] == c[k]
    {
      MovedAt(m, dst + top, src + top, len - top, k);
      MovedAt(a, dst + low, src + low, n, k);
      MovedAt(m, dst + low, src + low, len - low, k);
      if dst + low <= k < dst + low + n { MovedAt(m, dst + top, src + top, len - top, src + (k - dst)); }
    }
  }

  /** memcpy: always upwards, by longs when everything is aligned, whatever the overlap. */
  method Memcpy(mem: array<Byte>, dst: nat, src: nat, len: nat)
    requires dst + len <= mem.Length && src + len <= mem.Length
    modifies mem
    ensures mem[..] == Smeared(old(mem[..]), dst, src, len)
    ensures dst <= src || src + len <= dst ==> mem[..] == Moved(old(mem[..]), dst, src, len)
  {
    hide Moved, Smeared;
    SmearedMoves(mem[..], dst, src, len);
    if Aligned(dst, src, len) {
      WordsUp(mem, dst, src, len / LONG);
    } else {
      BytesUp(mem, dst, src, len);
    }
  }

  method WordsUp(mem: array<Byte>, dst: nat, src: nat, n: nat)
    requires dst + LONG * n <= mem.Length && src + LONG * n <= mem.Length && (src < dst ==> src + LONG <= dst)
    modifies mem
    ensures mem[..] == Smeared(old(mem[..]), dst, src, LONG * n)
  {
    hide Moved, Smeared;
    ghost var m := mem[..];
    SmearedNone(m, dst, src);
    var i := 0;
    while i < n
      invariant i <= n && mem[..] == Smeared(m, dst, src, LONG * i)
    {
      SmearedUp(m, dst, src, LONG * i, LONG);
      CopyLong(mem, dst + LONG * i, src + LONG * i);
      i := i + 1;
    }
  }

  method BytesUp(mem: array<Byte>, dst: nat, src: nat, len: nat)
    requires dst + len <= mem.Length && src + len <= mem.Length
    modifies mem
    ensures mem[..] == Smeared(old(mem[..]), dst, src, len)
  {
    hide Moved, Smeared;
    ghost var m := mem[..];
    SmearedNone(m, dst, src);
    var i := 0;
    while i < len
      invariant i <= len && mem[..] == Smeared(m, dst, src, i)
    {
      SmearedUp(m, dst, src, i, 1);
      CopyByte(mem, dst + i, src + i);
      i := i + 1;
    }
  }

  /** memmove: upwards through memcpy when the destination is below, downwards otherwise. */
  method Memmove(mem: array<Byte>, dst: nat, src: nat, len: nat)
    requires dst + len <= mem.Length && src + len <= mem.Length
    modifies mem
    ensures mem[..] == Moved(old(mem[..]), dst, src, len)
  {
    hide Moved;
    if dst < src {
      Memcpy(mem, dst, src, len);
    } else if Aligned(dst, src, len) {
      WordsDown(mem, dst, src, len / LONG);
    } else {
      BytesDown(mem, dst, src, len);
    }
  }

  method WordsDown(mem: array<Byte>, dst: nat, src: nat, n: nat)
    requires dst + LONG * n <= mem.Length && src + LONG * n <= mem.Length && src <= dst
    modifies mem
    ensures mem[..] == Moved(old(mem[..]), dst, src, LONG * n)
  {
    hide Moved;
    ghost var m := mem[..];
    MovedNone(m, dst + LONG * n, src + LONG * n);
    var i: nat := n;
    while i > 0
      invariant i <= n && mem[..] == Moved(m, dst + LONG * i, src + LONG * i, LONG * (n - i))
    {
      MovedDown(m, dst, src, LONG * i, LONG * n, LONG);
      CopyLong(mem, dst + LONG * (i - 1), src + LONG * (i - 1));
      i := i - 1;
    }
  }

  method BytesDown(mem: array<Byte>, dst: nat, src: nat, len: nat)
    requires dst + len <= mem.Length && src + len <= mem.Length && src <= dst
    modifies mem
    ensures mem[..] == Moved(old(mem[..]), dst, src, len)
  {
    hide Moved;
    ghost var m := mem[..];
    MovedNone(m, dst + len, src + len);
    var i: nat := len;
    while i > 0
      invariant i <= len && mem[..] == Moved(m, dst + i, src + i, len - i)
    {
      MovedDown(m, dst, src, i, len, 1);
      CopyByte(mem, dst + i - 1, src + i - 1);
      i := i - 1;
    }
  }

  lemma MovedNone(m: seq<Byte>, dst: nat, src: nat)
    requires dst <= |m| && src <= |m|
    ensures Moved(m, dst, src, 0) == m
  {
  }

  lemma SmearedNone(m: seq<Byte>, dst: nat, src: nat)
    requires dst <= |m| && src <= |m|
    ensures Smeared(m, dst, src, 0) == m
  {
  }
}
