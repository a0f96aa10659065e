/** Fixed-size bitmap over bytes: src/kern/lib/bitmap.c. */
module Bitmap {
  import opened Basics
  import opened Codec

  /** `(b & (1 << k)) != 0` */
  predicate HasBit(b: nat, k: nat) {
    if k == 0 then b % 2 == 1 else HasBit(b / 2, k - 1)
  }

  /** `b | (1 << k)` */
  function SetBit(b: nat, k: nat): nat {
    if k > 0 then 2 * SetBit(b / 2, k - 1) + b % 2 else if b % 2 == 1 then b else b + 1
  }

  /** `b & ~(1 << k)` */
  function ClearBit(b: nat, k: nat): nat {
    if k > 0 then 2 * ClearBit(b / 2, k - 1) + b % 2 else if b % 2 == 1 then b - 1 else b
  }

  /** Bit `k` is the one of weight 2 to the `k`. */
  lemma {:induction false} BitWeight(b: nat, k: nat) returns (high: nat, low: nat)
    ensures low < Pow2(k) && b == (2 * high + (if HasBit(b, k) then 1 else 0)) * Pow2(k) + low
  {
    if k == 0 {
      high, low := b / 2, 0;
    } else {
      high, low := BitWeight(b / 2, k - 1);
      TwiceTimes(2 * high + (if HasBit(b, k) then 1 else 0), Pow2(k - 1));
      low := 2 * low + b % 2;
    }
  }

  lemma TwiceTimes(q: nat, p: nat)
    ensures q * (2 * p) == 2 * (q * p)
  {
  }

  lemma {:induction false} SetBitBits(b: nat, k: nat, j: nat)
    ensures HasBit(SetBit(b, k), j) == (j == k || HasBit(b, j))
  {
    if k > 0 && j > 0 {
      SetBitBits(b / 2, k - 1, j - 1);
    }
  }

  lemma {:induction false} ClearBitBits(b: nat, k: nat, j: nat)
    ensures HasBit(ClearBit(b, k), j) == (j != k && HasBit(b, j))
  {
    if k > 0 && j > 0 {
      ClearBitBits(b / 2, k - 1, j - 1);
    }
  }

  lemma {:induction false} BitsInRange(b: nat, k: nat, n: nat)
    requires b < Pow2(n) && k < n
    ensures SetBit(b, k) < Pow2(n) && ClearBit(b, k) < Pow2(n)
  {
    hide HasBit;
    assert Pow2(n) == 2 * Pow2(n - 1) && Pow2(n - 1) > 0;
    hide Pow2;
    if k > 0 {
      BitsInRange(b / 2, k - 1, n - 1);
      assert SetBit(b, k) == 2 * SetBit(b / 2, k - 1) + b % 2;
      assert ClearBit(b, k) == 2 * ClearBit(b / 2, k - 1) + b % 2;
    } else {
      assert b / 2 < Pow2(n - 1);
    }
  }

  lemma {:induction false} OnesBit(n: nat, k: nat)
    requires k < n
    ensures HasBit(Pow2(n) - 1, k)
  {
    assert Pow2(n) == 2 * Pow2(n - 1);
    if k > 0 {
      OnesBit(n - 1, k - 1);
      assert (Pow2(n) - 1) / 2 == Pow2(n - 1) - 1;
    }
  }

  lemma {:induction false} AllOnes(b: nat, n: nat)
    requires b < Pow2(n) && forall k: nat :: k < n ==> HasBit(b, k)
    ensures b == Pow2(n) - 1
  {
    if n > 0 {
      assert HasBit(b, 0);
      forall k: nat | k < n - 1
        ensures HasBit(b / 2, k)
      {
        assert HasBit(b, k + 1);
      }
      AllOnes(b / 2, n - 1);
    }
  }

  lemma PowEight()
    ensures Pow2(8) == 256
  {
    assert Pow2(4) == 16;
  }

  /** Bit `i` of a byte string. */
  predicate BitAt(v: seq<Byte>, i: nat)
    requires i < 8 * |v|
  {
    HasBit(v[i / 8], i % 8)
  }

  function Bits(v: seq<Byte>): (s: seq<bool>)
    ensures |s| == 8 * |v|
    ensures forall i: nat :: i < |s| ==> s[i] == BitAt(v, i)
  {
    seq(8 * |v|, i requires 0 <= i < 8 * |v| => BitAt(v, i))
  }

  lemma BitsSet(v: seq<Byte>, ix: nat, k: nat)
    requires ix < |v| && k < 8
    ensures SetBit(v[ix], k) < 256
    ensures Bits(v[ix := SetBit(v[ix], k)]) == Bits(v)[8 * ix + k := true]
  {
    PowEight();
    BitsInRange(v[ix], k, 8);
    forall j: nat | j < 8 { SetBitBits(v[ix], k, j); }
  }

  lemma BitsClear(v: seq<Byte>, ix: nat, k: nat)
    requires ix < |v| && k < 8
    ensures ClearBit(v[ix], k) < 256
    ensures Bits(v[ix := ClearBit(v[ix], k)]) == Bits(v)[8 * ix + k := false]
  {
    PowEight();
    BitsInRange(v[ix], k, 8);
    forall j: nat | j < 8 { ClearBitBits(v[ix], k, j); }
  }

  lemma BitsFull(v: seq<Byte>, ix: nat)
    requires ix < |v|
    ensures v[ix] == 255 <==> forall i: nat :: 8 * ix <= i < 8 * ix + 8 ==> Bits(v)[i]
  {
    PowEight();
    forall k: nat | k < 8
      ensures HasBit(255, k)
    {
      OnesBit(8, k);
    }
    if forall i: nat :: 8 * ix <= i < 8 * ix + 8 ==> Bits(v)[i] {
      forall k: nat | k < 8
        ensures HasBit(v[ix], k)
      {
        assert Bits(v)[8 * ix + k];
      }
      AllOnes(v[ix], 8);
    }
  }

  class BitMap {
    const nbits: nat
    const v: array<Byte>

    ghost predicate Valid()
      reads this, v
    {
      && nbits <= 8 * v.Length < nbits + 8
      && forall i: nat :: nbits <= i < 8 * v.Length ==> Bits(v[..])[i]
    }

    /** bitmap_create: all bits clear, the leftover bits of the last byte set. */
    constructor (n: nat)
      ensures Valid() && nbits == n && fresh(v)
      ensures forall i: nat :: i < n ==> !Bits(v[..])[i]
    {
      nbits := n;
      var words := (n + 7) / 8;
      var b: array<Byte> := new Byte[words](_ => 0);
      v := b;
      new;
      assert forall i: nat :: i < 8 * words ==> !Bits(v[..])[i] by {
        forall k: nat | k < 8 { ZeroBits(k); }
      }
      if n / 8 < words {
        var ix := words - 1;
        var overbits := n - 8 * ix;
        assert 0 < overbits < 8;
        for j := overbits to 8
          invariant forall i: nat :: i < 8 * words ==> (Bits(v[..])[i] <==> n <= i < 8 * ix + j)
        {
          BitsSet(v[..], ix, j);
          ghost var was := v[..];
          v[ix] := SetBit(v[ix], j);
          assert v[..] == was[ix := SetBit(was[ix], j)];
        }
      }
    }

    /** bitmap_alloc: the lowest clear bit becomes set, or none is clear. */
    method Alloc() returns (r: int)
      requires Valid()
      modifies v
      ensures Valid()
      ensures r < 0 ==> v[..] == old(v[..]) && forall i: nat :: i < 8 * v.Length ==> Bits(v[..])[i]
      ensures 0 <= r ==>
        && r < nbits && !old(Bits(v[..])[r])
        && (forall i: nat :: i < r ==> old(Bits(v[..])[i]))
        && Bits(v[..]) == old(Bits(v[..]))[r := true]
    {
      var ix := 0;
      while ix < v.Length
        invariant ix <= v.Length && v[..] == old(v[..])
        invariant forall i: nat :: i < 8 * ix ==> Bits(v[..])[i]
      {
        BitsFull(v[..], ix);
        if v[ix] != 255 {
          var offset := 0;
          while offset < 8
            invariant offset <= 8 && v[..] == old(v[..])
            invariant forall i: nat :: i < 8 * ix + offset ==> Bits(v[..])[i]
          {
            assert Bits(v[..])[8 * ix + offset] == HasBit(v[ix], offset);
            if !HasBit(v[ix], offset) {
              BitsSet(v[..], ix, offset);
              v[ix] := SetBit(v[ix], offset);
              assert v[..] == old(v[..])[ix := SetBit(old(v[ix]), offset)];
              return 8 * ix + offset;
            }
            offset := offset + 1;
          }
          assert false;
        }
        ix := ix + 1;
      }
      return -1;
    }

    /** bitmap_mark, whose assertion demands that the bit is clear. */
    method Mark(index: nat)
      requires Valid() && index < nbits && !Bits(v[..])[index]
      modifies v
      ensures Valid() && Bits(v[..]) == old(Bits(v[..]))[index := true]
    {
      var ix, offset := index / 8, index % 8;
      BitsSet(v[..], ix, offset);
      v[ix] := SetBit(v[ix], offset);
      assert v[..] == old(v[..])[ix := SetBit(old(v[ix]), offset)];
    }

    /** bitmap_unmark, whose assertion demands that the bit is set. */
    method Unmark(index: nat)
      requires Valid() && index < nbits && Bits(v[..])[index]
      modifies v
      ensures Valid() && Bits(v[..]) == old(Bits(v[..]))[index := false]
    {
      var ix, offset := index / 8, index % 8;
      BitsClear(v[..], ix, offset);
      v[ix] := ClearBit(v[ix], offset);
      assert v[..] == old(v[..])[ix := ClearBit(old(v[ix]), offset)];
    }

    method IsSet(index: nat) returns (r: bool)
      requires index < 8 * v.Length
      ensures r == Bits(v[..])[index]
    {
      r := HasBit(v[index / 8], index % 8);
    }
  }

  lemma {:induction false} ZeroBits(k: nat)
    ensures !HasBit(0, k)
  {
    if k > 0 { ZeroBits(k - 1); }
  }
}
