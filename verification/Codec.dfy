/** Bytes, 512-byte blocks and the big-endian 32-bit words inside them. */
module Codec {
  import opened Basics

  type Byte = b: int | 0 <= b < 256

  const BLOCKSIZE: nat := 512

  type Block = s: seq<Byte> | |s| == 512 witness seq(512, _ => 0)

  function ZeroBlock(): (b: Block)
    ensures forall k :: 0 <= k < 512 ==> b[k] == 0
  {
    seq(512, _ => 0)
  }

  type Word = w: int | 0 <= w < 0x1_0000_0000

  /** The number a byte string spells, most significant byte first. */
  function Value(s: seq<Byte>): (n: nat)
    ensures |s| == 4 ==> n < WORD
    ensures |s| == 3 ==> n < 0x100_0000
    ensures |s| == 2 ==> n < 0x1_0000
    ensures |s| == 1 ==> n < 0x100
  {
    if s == [] then 0 else Value(s[..|s| - 1]) * 256 + s[|s| - 1]
  }

  /** The j-th word of a byte string. */
  function WordAt(s: seq<Byte>, j: nat): Word
    requires 4 * j + 4 <= |s|
  {
    Value(s[4 * j..4 * j + 4])
  }

  lemma ValueOfFour(b0: Byte, b1: Byte, b2: Byte, b3: Byte)
    ensures Value([b0, b1, b2, b3]) == ((b0 * 256 + b1) * 256 + b2) * 256 + b3
  {
    assert [b0, b1, b2, b3][..3] == [b0, b1, b2];
    assert [b0, b1, b2][..2] == [b0, b1];
    assert [b0, b1][..1] == [b0];
    assert Value([b0]) == b0;
    assert Value([b0, b1]) == b0 * 256 + b1;
    assert Value([b0, b1, b2]) == (b0 * 256 + b1) * 256 + b2;
  }

  lemma Digits(w: Word)
    ensures ((w / 0x100_0000 * 256 + w / 0x1_0000 % 0x100) * 256 + w / 0x100 % 0x100) * 256 + w % 0x100 == w
  {
  }

  /** A word as four bytes, most significant first. */
  function WordBytes(w: Word): (s: seq<Byte>)
    ensures |s| == 4
    ensures Value(s) == w
  {
    ValueOfFour(w / 0x100_0000, w / 0x1_0000 % 0x100, w / 0x100 % 0x100, w % 0x100);
    Digits(w);
    [w / 0x100_0000, w / 0x1_0000 % 0x100, w / 0x100 % 0x100, w % 0x100]
  }

  lemma SameWords(s: seq<Byte>, t: seq<Byte>, j: nat)
    requires 4 * j + 4 <= |s| == |t|
    requires forall i: nat :: i < |s| && !(4 * j <= i < 4 * j + 4) ==> t[i] == s[i]
    ensures forall k: nat :: 4 * k + 4 <= |s| && k != j ==> WordAt(t, k) == WordAt(s, k)
  {
    forall k: nat | 4 * k + 4 <= |s| && k != j
      ensures WordAt(t, k) == WordAt(s, k)
    {
      assert t[4 * k..4 * k + 4] == s[4 * k..4 * k + 4];
    }
  }

  /** The byte string with its j-th word overwritten. */
  function SetWord(s: seq<Byte>, j: nat, w: Word): (t: seq<Byte>)
    requires 4 * j + 4 <= |s|
    ensures |t| == |s|
    ensures WordAt(t, j) == w
    ensures forall k: nat :: 4 * k + 4 <= |s| && k != j ==> WordAt(t, k) == WordAt(s, k)
  {
    var t := s[..4 * j] + WordBytes(w) + s[4 * j + 4..];
    assert t[4 * j..4 * j + 4] == WordBytes(w);
    SameWords(s, t, j);
    t
  }

  function FirstWords(b: Block, n: nat): (ws: seq<Word>)
    requires n <= 128
    ensures |ws| == n
    ensures forall j: nat :: j < n ==> ws[j] == WordAt(b, j)
  {
    seq(n, j requires 0 <= j < n => WordAt(b, j))
  }

  lemma ZeroWord(j: nat)
    requires j < 128
    ensures WordAt(ZeroBlock(), j) == 0
  {
    ValueOfFour(0, 0, 0, 0);
    assert ZeroBlock()[4 * j..4 * j + 4] == [0, 0, 0, 0];
  }

  lemma ZeroWords(n: nat)
    requires n <= 128
    ensures FirstWords(ZeroBlock(), n) == seq(n, _ => 0)
  {
    forall j: nat | j < n
      ensures WordAt(ZeroBlock(), j) == 0
    {
      ZeroWord(j);
    }
  }
}
