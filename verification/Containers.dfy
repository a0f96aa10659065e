/** The kernel's growable containers of pointers: src/kern/lib/queue.c and src/kern/lib/array.c.
    Pointers are numbers. Where the source calls kmalloc, a parameter says whether it succeeds. */
module Containers {
  import opened Basics

  const LIMIT: nat := 0x4000_0000   // doubling a size below this cannot overflow an int

  /** The `n` elements of a ring from index `r` on. */
  function Ring(d: seq<nat>, r: nat, n: nat): (s: seq<nat>)
    requires r < |d| && n <= |d|
    ensures |s| == n && forall i: nat :: i < n ==> s[i] == d[(r + i) % |d|]
  {
    seq(n, i requires 0 <= i < n => d[(r + i) % |d|])
  }

  /** How many elements lie between the read and the write index. */
  function Span(r: nat, w: nat, size: nat): (n: nat)
    requires r < size && w < size
    ensures n < size && (n == 0 <==> r == w)
  {
    if r <= w then w - r else w - r + size
  }

  lemma SpanEnd(r: nat, w: nat, size: nat)
    requires r < size && w < size
    ensures (r + Span(r, w, size)) % size == w
  {
    Wrap(r + Span(r, w, size), size);
  }

  lemma SpanNext(r: nat, w: nat, size: nat)
    requires r < size && w < size && (w + 1) % size != r
    ensures Span(r, (w + 1) % size, size) == Span(r, w, size) + 1
  {
    WrapStep(w, size);
  }

  lemma SpanRead(r: nat, w: nat, size: nat)
    requires r < size && w < size && w != r
    ensures Span((r + 1) % size, w, size) == Span(r, w, size) - 1
  {
    WrapStep(r, size);
  }

  lemma WrapStep(i: nat, size: nat)
    requires i < size
    ensures (i + 1) % size == if i + 1 == size then 0 else i + 1
  {
  }

  /** Within one turn of the ring, places are distinct. */
  lemma RingPlace(r: nat, i: nat, j: nat, size: nat)
    requires r < size && i < size && j < size
    ensures (r + i) % size == (r + j) % size <==> i == j
    ensures (r + i) % size == if r + i < size then r + i else r + i - size
  {
    Wrap(r + i, size);
    Wrap(r + j, size);
  }

  lemma RingWrite(d: seq<nat>, r: nat, n: nat, x: nat)
    requires r < |d| && n < |d|
    ensures (r + n) % |d| < |d| && Ring(d[(r + n) % |d| := x], r, n + 1) == Ring(d, r, n) + [x]
  {
    Wrap(r + n, |d|);
    var w := (r + n) % |d|;
    var d' := d[w := x];
    forall i: nat | i < n + 1
      ensures Ring(d', r, n + 1)[i] == (Ring(d, r, n) + [x])[i]
    {
      RingPlace(r, i, n, |d|);
    }
  }

  lemma RingRead(d: seq<nat>, r: nat, n: nat)
    requires r < |d| && 0 < n <= |d|
    ensures (r + 1) % |d| < |d| && Ring(d, r, n) == [d[r]] + Ring(d, (r + 1) % |d|, n - 1)
  {
    WrapStep(r, |d|);
    var s := Ring(d, (r + 1) % |d|, n - 1);
    forall i: nat | i < n
      ensures Ring(d, r, n)[i] == ([d[r]] + s)[i]
    {
      if i == 0 {
        Wrap(r, |d|);
      } else {
        Wrap(r + i, |d|);
        Wrap((r + 1) % |d| + i - 1, |d|);
      }
    }
  }

  class Queue {
    var size: nat
    var nextwrite: nat
    var nextread: nat
    var data: array<nat>

    ghost predicate Valid()
      reads this, data
    {
      0 < size <= 2 * LIMIT && data.Length == size && nextwrite < size && nextread < size
    }

    /** The elements waiting, first in line first. */
    ghost function Contents(): seq<nat>
      requires Valid()
      reads this, data
    {
      Ring(data[..], nextread, Span(nextread, nextwrite, size))
    }

    /** The next write index would meet the read index: one place always stays empty. */
    ghost predicate Full()
      requires Valid()
      reads this, data
    {
      |Contents()| == size - 1
    }

    /** q_create. */
    constructor (n: nat)
      requires 0 < n <= LIMIT
      ensures Valid() && fresh(data) && Contents() == [] && size == n
    {
      size, nextwrite, nextread := n, 0, 0;
      data := new nat[n];
    }

    method IsEmpty() returns (b: bool)
      requires Valid()
      ensures b <==> Contents() == []
    {
      b := nextwrite == nextread;
    }

    /** The test of q_addtail. */
    method IsFull() returns (b: bool)
      requires Valid()
      ensures b <==> Full()
    {
      hide Ring;
      FullIff(nextread, nextwrite, size);
      b := (nextwrite + 1) % size == nextread;
    }

    /** q_addtail. */
    method AddTail(x: nat, room: bool) returns (ok: bool)
      requires Valid() && (Full() ==> size < LIMIT)
      modifies this, data
      ensures Valid() && (data == old(data) || fresh(data)) && size >= old(size)
      ensures ok <==> room || !old(Full())
      ensures !room || !old(Full()) ==> data == old(data) && size == old(size)
      ensures Contents() == if ok then old(Contents()) + [x] else old(Contents())
      decreases if Full() then 2 else 0, 0
    {
      hide Ring, Span;
      var nextnext := (nextwrite + 1) % size;
      FullIff(nextread, nextwrite, size);
      if nextnext == nextread {
        ok := Grow(size + 1, room);
        if !ok { return; }
        nextnext := (nextwrite + 1) % size;
        FullIff(nextread, nextwrite, size);
      }
      SpanNext(nextread, nextwrite, size);
      SpanEnd(nextread, nextwrite, size);
      RingWrite(data[..], nextread, Span(nextread, nextwrite, size), x);
      label before:
      data[nextwrite] := x;
      assert data[..] == old@before(data[..])[nextwrite := x];
      nextwrite := nextnext;
      ok := true;
    }

    /** q_grow: the new ring is refilled through q_addtail, which never finds it full. */
    method Grow(target: nat, room: bool) returns (ok: bool)
      requires Valid() && size < target <= LIMIT
      modifies this, data
      ensures ok == room && Valid() && Contents() == old(Contents())
      ensures ok ==> fresh(data) && target <= size < 2 * target && !Full()
      ensures !ok ==> unchanged(this)
      decreases 1, 1
    {
      hide Ring;
      var olddata, onr, onw, osize := data, nextread, nextwrite, size;
      var nsize := size;
      while nsize < target
        invariant 0 < nsize < 2 * target
      {
        nsize := nsize * 2;
      }
      if !room { return false; }
      size := nsize;
      data := new nat[nsize];
      nextread, nextwrite := 0, 0;
      assert Contents() == [] by { RingNone(data[..], 0); }
      Refill(olddata, onr, onw, osize);
      ok := true;
    }

    /** The refill loop of q_grow. */
    method Refill(olddata: array<nat>, onr: nat, onw: nat, osize: nat)
      requires Valid() && Contents() == [] && size < LIMIT * 2 && data != olddata
      requires olddata.Length == osize && onr < osize && onw < osize && osize < size
      modifies this, data
      ensures Valid() && data == old(data) && size == old(size)
      ensures Contents() == Ring(olddata[..], onr, Span(onr, onw, osize))
      decreases 1, 0
    {
      hide Ring, Span, Place;
      var i := onr;
      ghost var k := 0;
      ghost var before := olddata[..];
      ghost var n := Span(onr, onw, osize);
      ghost var whole := Ring(before, onr, n);
      PlaceStart(onr, osize);
      while i != onw
        invariant i < osize && k <= n && i == Place(onr, k, osize)
        invariant Valid() && data == old(data) && size == old(size) && Contents() == whole[..k]
        invariant olddata[..] == before
        decreases n - k
      {
        Turned(onr, onw, osize, k);
        RingAt(before, onr, n, k);
        var done := AddTail(olddata[i], false);
        assert done;
        assert whole[..k + 1] == whole[..k] + [whole[k]];
        PlaceNext(onr, k, osize);
        i := (i + 1) % osize;
        k := k + 1;
      }
      Turned(onr, onw, osize, k);
      assert whole[..k] == whole;
    }

    /** q_preallocate. */
    method Preallocate(n: nat, room: bool) returns (ok: bool)
      requires Valid() && n <= LIMIT
      modifies this, data
      ensures Valid() && (data == old(data) || fresh(data)) && Contents() == old(Contents())
      ensures ok <==> room || n <= old(size)
      ensures ok ==> n <= size
      ensures size >= old(size) && (n <= old(size) ==> size == old(size))
    {
      ok := true;
      if n > size { ok := Grow(n, room); }
    }

    /** q_remhead. */
    method RemHead() returns (x: nat)
      requires Valid() && Contents() != []
      modifies this`nextread
      ensures Valid() && old(Contents()) == [x] + Contents()
    {
      hide Ring;
      SpanRead(nextread, nextwrite, size);
      RingRead(data[..], nextread, Span(nextread, nextwrite, size));
      x := data[nextread];
      nextread := (nextread + 1) % size;
    }
  }

  /** A call on a queue, with what kmalloc would answer; a removal is made only when there is
      something to remove. */
  datatype QueueOp = Add(x: nat, room: bool) | Remove | Reserve(n: nat, room: bool)

  /** The elements of the calls that were accepted. */
  function Picked(ops: seq<QueueOp>, accepted: seq<bool>): seq<nat>
    requires |ops| == |accepted|
  {
    if ops == [] then []
    else
      var n := |ops| - 1;
      Picked(ops[..n], accepted[..n]) + (if ops[n].Add? && accepted[n] then [ops[n].x] else [])
  }

  /** One call: what comes out, followed by what is still waiting, is what was there and what has
      gone in. */
  method QueueStep(q: Queue, op: QueueOp) returns (ok: bool, out: seq<nat>)
    requires q.Valid()
    modifies q, q.data
    ensures q.Valid() && (q.data == old(q.data) || fresh(q.data)) && q.size >= old(q.size)
    ensures out + q.Contents() == old(q.Contents()) + (if op.Add? && ok then [op.x] else [])
    ensures op.Add? && op.room && !ok ==> q.size >= LIMIT
  {
    hide Ring, Span;
    ok, out := false, [];
    match op {
      case Add(x, room) =>
        if q.size < LIMIT { ok := q.AddTail(x, room); }
      case Remove =>
        var e := q.IsEmpty();
        if !e {
          var x := q.RemHead();
          out := [x];
        }
      case Reserve(n, room) =>
        if n <= LIMIT { ok := q.Preallocate(n, room); }
    }
  }

  /** First in, first out, over any run: what has come out, followed by what is still waiting,
      is what was there and what has gone in, in order; an addition with room to grow is
      turned down only by a ring that has reached the size limit. */
  method RunQueue(q: Queue, ops: seq<QueueOp>) returns (taken: seq<nat>, accepted: seq<bool>)
    requires q.Valid()
    modifies q, q.data
    ensures q.Valid() && |accepted| == |ops| && taken + q.Contents() == old(q.Contents()) + Picked(ops, accepted)
    ensures forall k: nat :: k < |ops| && ops[k].Add? && ops[k].room && !accepted[k] ==> q.size >= LIMIT
  {
    hide Ring, Span;
    taken, accepted := [], [];
    var k := 0;
    ghost var begin := q.Contents();
    while k < |ops|
      invariant k <= |ops| && q.Valid() && (q.data == old(q.data) || fresh(q.data)) && |accepted| == k
      invariant taken + q.Contents() == begin + Picked(ops[..k], accepted)
      invariant forall j: nat :: j < k && ops[j].Add? && ops[j].room && !accepted[j] ==> q.size >= LIMIT
    {
      ghost var now := q.Contents();
      ghost var added := Picked(ops[..k], accepted);
      var ok, out := QueueStep(q, ops[k]);
      Assoc(taken, out, q.Contents());
      Assoc(taken, now, if ops[k].Add? && ok then [ops[k].x] else []);
      Assoc(begin, added, if ops[k].Add? && ok then [ops[k].x] else []);
      taken := taken + out;
      assert ops[..k + 1][..k] == ops[..k] && (accepted + [ok])[..k] == accepted;
      accepted := accepted + [ok];
      k := k + 1;
      assert Picked(ops[..k], accepted) == added + (if ops[k - 1].Add? && ok then [ops[k - 1].x] else []);
    }
    assert ops[..k] == ops;
  }

  lemma Assoc(a: seq<nat>, b: seq<nat>, c: seq<nat>)
    ensures a + b + c == a + (b + c)
  {
  }

  lemma FullIff(r: nat, w: nat, size: nat)
    requires r < size && w < size
    ensures (w + 1) % size == r <==> Span(r, w, size) == size - 1
  {
    WrapStep(w, size);
  }

  lemma RingNone(d: seq<nat>, r: nat)
    requires r < |d|
    ensures Ring(d, r, 0) == []
    ensures (r + 0) % |d| == r
  {
  }

  lemma RingAt(d: seq<nat>, r: nat, n: nat, k: nat)
    requires r < |d| && n <= |d| && k < n
    ensures Ring(d, r, n)[k] == d[Place(r, k, |d|)]
  {
  }

  /** The `k`-th place of a ring from index `r` on. */
  function Place(r: nat, k: nat, size: nat): (i: nat)
    requires 0 < size
    ensures i < size
  {
    (r + k) % size
  }

  lemma PlaceStart(r: nat, size: nat)
    requires r < size
    ensures Place(r, 0, size) == r
  {
    Wrap(r, size);
  }

  lemma PlaceNext(r: nat, k: nat, size: nat)
    requires 0 < size
    ensures (Place(r, k, size) + 1) % size < size && Place(r, k + 1, size) == (Place(r, k, size) + 1) % size
  {
    WrapNext(r + k, size);
  }

  /** A walk round the ring meets the write index when it has met every element. */
  lemma Turned(r: nat, w: nat, size: nat, k: nat)
    requires r < size && w < size && k <= Span(r, w, size)
    ensures Place(r, k, size) == w <==> k == Span(r, w, size)
  {
    SpanEnd(r, w, size);
    RingPlace(r, k, Span(r, w, size), size);
  }

  // ---------------------------------------------------------------- arrays

  /** The growth rule of array_preallocate. */
  function Grown(max: nat, n: nat): (m: nat)
    ensures n <= m && max <= m
    ensures if n <= max then m == max else m <= 2 * n
    decreases n - max
  {
    if n <= max then max else Grown((max + 1) * 2, n)
  }

  /** The capacity and two doubles again and again. */
  lemma {:induction false} GrownForm(max: nat, n: nat) returns (k: nat)
    ensures Grown(max, n) + 2 == (max + 2) * Pow2(k) && (k == 0 <==> n <= max)
    decreases n - max
  {
    k := 0;
    if n > max {
      k := GrownForm((max + 1) * 2, n);
      Doubled(max + 2, Pow2(k));
      k := k + 1;
    }
  }

  lemma Doubled(a: nat, p: nat)
    ensures 2 * a * p == a * (2 * p)
  {
  }

  class Arr {
    var num: nat
    var max: nat
    var v: array?<nat>

    ghost predicate Valid()
      reads this, v
    {
      num <= max && (v == null ==> max == 0) && (v != null ==> v.Length == max)
    }

    ghost function Contents(): (s: seq<nat>)
      requires Valid()
      reads this, v
      ensures |s| == num
    {
      if v == null then [] else v[..num]
    }

    /** array_create. */
    constructor ()
      ensures Valid() && v == null && Contents() == []
    {
      v, num, max := null, 0, 0;
    }

    method GetGuy(i: nat) returns (x: nat)
      requires Valid() && i < num
      ensures x == Contents()[i]
    {
      x := v[i];
    }

    /** array_preallocate. */
    method Preallocate(n: nat, room: bool) returns (ok: bool)
      requires Valid()
      modifies this
      ensures Valid() && Contents() == old(Contents()) && num == old(num) && ok == room
      ensures ok ==> fresh(v) && max == Grown(old(max), n)
      ensures !ok ==> v == old(v) && max == old(max)
    {
      var newmax := max;
      while n > newmax
        invariant max <= newmax && Grown(newmax, n) == Grown(max, n)
        decreases n - newmax
      {
        newmax := (newmax + 1) * 2;
      }
      if !room { return false; }
      var newv := new nat[newmax];
      max := newmax;
      var i := 0;
      ghost var s := old(Contents());
      while i < num
        invariant i <= num && v == old(v) && num == old(num) && max == newmax
        invariant v != null ==> num <= v.Length && v[..num] == s
        invariant newv[..i] == s[..i]
        modifies newv
      {
        newv[i] := v[i];
        i := i + 1;
      }
      v := newv;
      ok := true;
    }

    /** array_setsize: storage of more than 16 elements is dropped with the last element. */
    method SetSize(n: nat, room: bool) returns (ok: bool)
      requires Valid()
      modifies this
      ensures Valid() && (ok <==> room || n <= old(max))
      ensures v == old(v) || v == null || (n > 0 && fresh(v))
      ensures 0 < n <= old(max) ==> v == old(v)
      ensures ok ==>
        var k := if n <= old(num) then n else old(num);
        num == n && Contents()[..k] == old(Contents())[..k]
      ensures ok ==> max == if n == 0 && old(max) > 16 then 0 else Grown(old(max), n)
      ensures !ok ==> v == old(v) && max == old(max) && num == old(num) && Contents() == old(Contents())
    {
      ghost var s := Contents();
      ok := true;
      if n > max {
        ok := Preallocate(n, room);
        if !ok { return; }
      } else if n == 0 && max > 16 {
        v := null;
        max := 0;
      }
      num := n;
    }

    /** array_add: it allocates only when the array is full. */
    method Add(x: nat, room: bool) returns (ok: bool)
      requires Valid()
      modifies this, v
      ensures Valid() && (ok <==> room || old(num) < old(max)) && (v == old(v) || fresh(v))
      ensures Contents() == if ok then old(Contents()) + [x] else old(Contents())
      ensures ok ==> max == Grown(old(max), old(num) + 1)
      ensures !ok ==> max == old(max)
      ensures old(num) < old(max) ==> v == old(v)
    {
      ghost var s := Contents();
      var ix := num;
      ok := SetSize(ix + 1, room);
      if !ok { return; }
      assert Contents()[..ix] == s;
      v[ix] := x;
    }

    /** array_remove. */
    method Remove(i: nat)
      requires Valid() && i < num
      modifies this`num, v
      ensures Valid() && Contents() == old(Contents())[..i] + old(Contents())[i + 1..]
    {
      ghost var s := Contents();
      var j := i;
      while j + 1 < num
        invariant i <= j < num && num == old(num) && |v[..num]| == |s|
        invariant v[..j] == (s[..i] + s[i + 1..])[..j] && v[j + 1..num] == s[j + 1..]
        modifies v
      {
        assert s[j + 1..][0] == s[j + 1];
        v[j] := v[j + 1];
        j := j + 1;
      }
      num := num - 1;
    }
  }
}
