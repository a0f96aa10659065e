/** The descriptor of a data transfer: src/kern/userprog/uio.c, for buffers in
    kernel memory. */
module UserIo {
  import opened Codec

  datatype Rw = Read | Write

  function Min(a: nat, b: nat): nat { if a < b then a else b }

  /** `c` with the bytes from `off` on overwritten by `d`. */
  function Splice(c: seq<Byte>, off: nat, d: seq<Byte>): (r: seq<Byte>)
    requires off + |d| <= |c|
    ensures |r| == |c|
  {
    c[..off] + d + c[off + |d|..]
  }

  /** Two adjacent overwrites are one. */
  lemma SpliceTwice(c: seq<Byte>, off: nat, d: seq<Byte>, e: seq<Byte>)
    requires off + |d| + |e| <= |c|
    ensures Splice(Splice(c, off, d), off + |d|, e) == Splice(c, off, d + e)
  {
  }

  /** What an overwrite leaves alone, and what it puts there. */
  lemma SpliceSlice(c: seq<Byte>, off: nat, d: seq<Byte>, at: nat, n: nat)
    requires off + |d| <= |c| && at + n <= |c|
    ensures at + n <= off || off + |d| <= at ==> Splice(c, off, d)[at..at + n] == c[at..at + n]
    ensures at == off && n == |d| ==> Splice(c, off, d)[at..at + n] == d
  {
  }

  /** Byte by byte. */
  lemma SpliceAt(c: seq<Byte>, off: nat, d: seq<Byte>)
    requires off + |d| <= |c|
    ensures forall i: nat :: i < |c| ==> Splice(c, off, d)[i] == if off <= i < off + |d| then d[i - off] else c[i]
  {
  }

  lemma SpliceNone(c: seq<Byte>, off: nat)
    requires off <= |c|
    ensures Splice(c, off, []) == c
  {
  }

  lemma SpliceAll(c: seq<Byte>, d: seq<Byte>)
    requires |d| == |c|
    ensures Splice(c, 0, d) == d
  {
  }

  /** memmove between two buffers, or within one. */
  method Copy(dst: array<Byte>, to: nat, src: array<Byte>, from: nat, n: nat)
    requires to + n <= dst.Length && from + n <= src.Length
    modifies dst
    ensures dst[..] == Splice(old(dst[..]), to, old(src[from..from + n]))
  {
    forall i | 0 <= i < n { dst[to + i] := src[from + i]; }
  }

  class Uio {
    const rw: Rw
    const buf: array<Byte>
    var base: nat   // iov_kbase, as an index into buf
    var len: nat    // iov_len
    var offset: nat // uio_offset
    var resid: nat  // uio_resid

    ghost predicate Valid()
      reads this
    {
      resid <= len && base + len <= buf.Length
    }

    /** mk_kuio */
    constructor (kbuf: array<Byte>, n: nat, pos: nat, dir: Rw)
      requires n <= kbuf.Length
      ensures Valid() && rw == dir && buf == kbuf
      ensures base == 0 && len == n && resid == n && offset == pos
    {
      rw, buf := dir, kbuf;
      base, len, resid, offset := 0, n, n, pos;
    }

    /** uiomove: transfer up to `n` bytes between kbuf[at..] and the buffer. The
        residue must bound the transfer unless it is the whole buffer. */
    method Move(kbuf: array<Byte>, at: nat, n: nat)
      requires Valid() && kbuf != buf && at + n <= kbuf.Length
      requires n <= resid || resid == len
      modifies this, buf, kbuf
      ensures Valid()
      ensures if rw == Read then kbuf[..] == old(kbuf[..]) else buf[..] == old(buf[..])
      ensures var m := Min(n, old(resid));
        && base == old(base) + m && len == old(len) - m
        && offset == old(offset) + m && resid == old(resid) - m
        && (rw == Read ==> buf[..] == Splice(old(buf[..]), old(base), kbuf[at..at + m]))
        && (rw == Write ==> kbuf[..] == Splice(old(kbuf[..]), at, old(buf[base..base + m])))
    {
      hide Splice;
      ghost var m := Min(n, resid);
      var ptr, left := at, n;
      while left > 0 && resid > 0
        invariant left == n || (left == n - m && (left == 0 || resid == 0))
        invariant Valid() && ptr == at + (n - left)
        invariant base == old(base) + (n - left) && len == old(len) - (n - left)
        invariant resid == old(resid) - (n - left) && offset == old(offset) + (n - left)
        invariant left == n ==> buf[..] == old(buf[..]) && kbuf[..] == old(kbuf[..])
        invariant if rw == Read then kbuf[..] == old(kbuf[..]) else buf[..] == old(buf[..])
        invariant left != n && rw == Read ==> buf[..] == Splice(old(buf[..]), old(base), kbuf[at..at + m])
        invariant left != n && rw == Write ==> kbuf[..] == Splice(old(kbuf[..]), at, old(buf[base..base + m]))
      {
        var size := if len > left then left else len;
        if rw == Read {
          Copy(buf, base, kbuf, ptr, size);
        } else {
          Copy(kbuf, ptr, buf, base, size);
        }
        base, len := base + size, len - size;
        resid, offset := resid - size, offset + size;
        ptr, left := ptr + size, left - size;
      }
      SpliceNone(old(buf[..]), old(base));
      SpliceNone(old(kbuf[..]), at);
      assert m == 0 ==> kbuf[at..at + m] == [] && old(buf[base..base + m]) == [];
    }

    /** uiomovezeros: 16 bytes of zeros at a time. */
    method MoveZeros(n: nat)
      requires Valid() && rw == Read && n <= resid
      modifies this, buf
      ensures Valid()
      ensures base == old(base) + n && len == old(len) - n
      ensures offset == old(offset) + n && resid == old(resid) - n
      ensures buf[..] == Splice(old(buf[..]), old(base), seq(n, _ => 0))
    {
      hide Splice;
      var zeros := new Byte[16](_ => 0);
      var left: nat := n;
      SpliceNone(buf[..], base);
      assert seq(0, _ => 0) == [];
      while left > 0
        invariant Valid() && left <= n && zeros[..] == seq(16, _ => 0)
        invariant base == old(base) + (n - left) && len == old(len) - (n - left)
        invariant offset == old(offset) + (n - left) && resid == old(resid) - (n - left)
        invariant buf[..] == Splice(old(buf[..]), old(base), seq(n - left, _ => 0))
      {
        var amt := if 16 > left then left else 16;
        ghost var done := n - left;
        SpliceTwice(old(buf[..]), old(base), seq(done, _ => 0), seq(amt, _ => 0));
        Move(zeros, 0, amt);
        assert zeros[0..amt] == seq(amt, _ => 0);
        assert seq(done, _ => 0) + seq(amt, _ => 0) == seq(done + amt, _ => 0);
        left := left - amt;
      }
      assert seq(n - left, _ => 0) == seq(n, _ => 0);
    }
  }
}
