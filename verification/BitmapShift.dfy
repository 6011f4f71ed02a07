/** The bit shifts of kernel/util.c over a page of 4096 bits that starts at bit `base` of a
    word array. Bits are read and written one at a time. */
module BitmapShift {
  import opened Words

  const PAGE_BITS := 4096

  /** From bit `lo` up to bit `hi`, each bit is the one `delta` places on; the rest is as it was. */
  ghost predicate Moved(m: seq<word>, m': seq<word>, lo: int, hi: int, delta: int)
    requires lo < hi ==> 0 <= lo + delta && hi <= 32 * |m| && hi + delta <= 32 * |m|
  {
    |m'| == |m| && forall q: nat {:trigger BitAt(m', q)} :: q < 32 * |m| ==>
      BitAt(m', q) == BitAt(m, if lo <= q < hi then q + delta else q)
  }

  /** The page from `position` on, moved `num` bits up. */
  ghost predicate ShiftedRight(m: seq<word>, m': seq<word>, base: nat, position: nat, num: nat)
    requires num <= base + position && base + PAGE_BITS <= 32 * |m|
  {
    Moved(m, m', base + position, base + PAGE_BITS, 0 - num)
  }

  /** The page from `position` on, moved `num` bits down. */
  ghost predicate ShiftedLeft(m: seq<word>, m': seq<word>, base: nat, position: nat, num: nat)
    requires base + PAGE_BITS + num <= 32 * |m|
  {
    Moved(m, m', base + position, base + PAGE_BITS, num)
  }

  /** How many bits a block of `num` at `position` has past the end of the page. */
  function Overflow(position: nat, num: nat): nat {
    if position + num > PAGE_BITS then position + num - PAGE_BITS else 0
  }

  /** The holder word has the bits after the page, and bit 31 when there are any to keep. */
  ghost predicate HoldsOverflow(m: seq<word>, holder: word, base: nat, count: nat)
    requires count <= 31 && base + PAGE_BITS + count <= 32 * |m|
  {
    forall k: nat :: k < 32 ==> Bit(holder, k) == if k < count then BitAt(m, base + PAGE_BITS + k) else k == 31 && count > 0
  }

  /** Bit `q` of the array, put where `p` is. */
  method CopyBit(a: array<word>, p: nat, q: nat)
    requires p < 32 * a.Length && q < 32 * a.Length
    modifies a
    ensures Written(old(a[..]), a[..], p, BitAt(old(a[..]), q))
  {
    hide Bit, WithBit, WithoutBit;
    ghost var m := a[..];
    assert m[q / 32] == a[q / 32];
    if Bit(a[q / 32], q % 32) {
      a[p / 32] := WithBit(a[p / 32], p % 32);
    } else {
      a[p / 32] := WithoutBit(a[p / 32], p % 32);
    }
    WriteBitWrites(m, p, BitAt(m, q));
    assert a[..] == WriteBit(m, p, BitAt(m, q));
  }

  lemma ZeroBits(k: nat)
    ensures !Bit(0, k)
  {
    BitIsOdd(0, k);
    ShrZero(k);
  }

  /** The bits after the page, kept in one word (lines 153-170 and 210-226). */
  method KeepOverflow(a: array<word>, base: nat, count: nat) returns (holder: word)
    requires count <= 31 && base + PAGE_BITS + count <= 32 * a.Length
    ensures HoldsOverflow(a[..], holder, base, count)
  {
    hide Bit, WithBit, WithoutBit;
    holder := 0;
    forall k: nat ensures !Bit(0, k) { ZeroBits(k); }
    if count > 0 {
      for i := 0 to count
        invariant forall k: nat :: k < 32 ==> Bit(holder, k) == (k < i && BitAt(a[..], base + PAGE_BITS + k))
      {
        forall k: nat | k < 32
          ensures Bit(WithBit(holder, i), k) == (k == i || Bit(holder, k))
          ensures Bit(WithoutBit(holder, i), k) == (k != i && Bit(holder, k))
        {
          BitAfterWrite(holder, i, k);
        }
        if Bit(a[(base + PAGE_BITS + i) / 32], (base + PAGE_BITS + i) % 32) {
          holder := WithBit(holder, i);
        } else {
          holder := WithoutBit(holder, i);
        }
      }
      forall k: nat | k < 32 ensures Bit(WithBit(holder, 31), k) == (k == 31 || Bit(holder, k)) {
        BitAfterWrite(holder, 31, k);
      }
      holder := WithBit(holder, 31);
    }
  }

  lemma NothingMoved(m: seq<word>, lo: int, hi: int, delta: int)
    requires lo >= hi
    ensures Moved(m, m, lo, hi, delta)
  {}

  lemma StillNothing(m: seq<word>, m': seq<word>, lo: int, lo': int, hi: int, delta: int)
    requires lo >= hi && lo' >= hi && Moved(m, m', lo, hi, delta)
    ensures Moved(m, m', lo', hi, delta)
  {}

  /** After a shift every bit of the page from the position on is the one `num` places before or after
      it, and no other bit changes. */
  lemma ShiftedBits(m: seq<word>, m': seq<word>, base: nat, position: nat, num: nat, q: nat)
    requires num <= base + position && base + PAGE_BITS + num <= 32 * |m| && q < 32 * |m| == 32 * |m'|
    ensures ShiftedRight(m, m', base, position, num) ==>
      BitAt(m', q) == BitAt(m, if base + position <= q < base + 4096 then q - num else q)
    ensures ShiftedLeft(m, m', base, position, num) ==>
      BitAt(m', q) == BitAt(m, if base + position <= q < base + 4096 then q + num else q)
  {
    hide BitAt;
  }

  /** One bit more, below those moved up so far; it comes from below. */
  lemma MovedDown(m: seq<word>, was: seq<word>, now: seq<word>, t: nat, hi: nat, num: nat)
    requires num <= t < hi <= 32 * |m| && Moved(m, was, t + 1, hi, 0 - num)
    requires Written(was, now, t, BitAt(was, t - num))
    ensures Moved(m, now, t, hi, 0 - num)
  {
    hide Bit, BitAt;
  }

  /** One bit more, above those moved down so far; it comes from above. */
  lemma MovedUp(m: seq<word>, was: seq<word>, now: seq<word>, lo: nat, t: nat, num: nat)
    requires lo <= t && t + 1 + num <= 32 * |m| && Moved(m, was, lo, t, num)
    requires Written(was, now, t, BitAt(was, t + num))
    ensures Moved(m, now, lo, t + 1, num)
  {
    hide Bit, BitAt;
  }

  method ShiftBitmapRight(a: array<word>, base: nat, position: nat, num: nat) returns (holder: word)
    requires 1 <= position && num <= base + position && base + PAGE_BITS <= 32 * a.Length
    requires Overflow(position, num) <= 31 && base + PAGE_BITS + Overflow(position, num) <= 32 * a.Length
    modifies a
    ensures ShiftedRight(old(a[..]), a[..], base, position, num)
    ensures HoldsOverflow(old(a[..]), holder, base, Overflow(position, num))
  {
    hide Bit, BitAt, Moved, Written;
    ghost var m := a[..];
    NothingMoved(m, base + PAGE_BITS, base + PAGE_BITS, 0 - num);
    holder := KeepOverflow(a, base, Overflow(position, num));
    var temp := PAGE_BITS - 1;
    while temp >= position
      invariant position <= PAGE_BITS ==> position - 1 <= temp < PAGE_BITS
      invariant position > PAGE_BITS ==> temp == PAGE_BITS - 1
      invariant Moved(m, a[..], base + temp + 1, base + PAGE_BITS, 0 - num)
      modifies a
    {
      ghost var was := a[..];
      CopyBit(a, base + temp, base + temp - num);
      MovedDown(m, was, a[..], base + temp, base + PAGE_BITS, num);
      temp := temp - 1;
    }
    if position > PAGE_BITS { StillNothing(m, a[..], base + PAGE_BITS, base + position, base + PAGE_BITS, 0 - num); }
  }

  method ShiftBitmapLeft(a: array<word>, base: nat, position: nat, num: nat) returns (holder: word)
    requires base + PAGE_BITS + num <= 32 * a.Length
    requires Overflow(position, num) <= 31 && base + PAGE_BITS + Overflow(position, num) <= 32 * a.Length
    modifies a
    ensures ShiftedLeft(old(a[..]), a[..], base, position, num)
    ensures HoldsOverflow(old(a[..]), holder, base, Overflow(position, num))
  {
    hide Bit, BitAt, Moved, Written;
    ghost var m := a[..];
    NothingMoved(m, base + position, if position <= PAGE_BITS then base + position else base + PAGE_BITS, num);
    holder := KeepOverflow(a, base, Overflow(position, num));
    var temp := position;
    while temp < PAGE_BITS
      invariant position <= temp && (position <= PAGE_BITS ==> temp <= PAGE_BITS)
      invariant Moved(m, a[..], base + position, if temp <= PAGE_BITS then base + temp else base + PAGE_BITS, num)
      modifies a
    {
      ghost var was := a[..];
      CopyBit(a, base + temp, base + temp + num);
      MovedUp(m, was, a[..], base + position, base + temp, num);
      temp := temp + 1;
    }
    if position > PAGE_BITS { StillNothing(m, a[..], base + position, base + position, base + PAGE_BITS, num); }
  }

  /** Right and then left with the same arguments: a bit of the page that had room to move is
      back where it was; the last `num` bits are lost, the bits after the page are in their place. */
  lemma RightThenLeft(m: seq<word>, m': seq<word>, m'': seq<word>, base: nat, position: nat, num: nat)
    requires num <= base + position && base + PAGE_BITS + num <= 32 * |m| && position < PAGE_BITS
    requires ShiftedRight(m, m', base, position, num) && ShiftedLeft(m', m'', base, position, num)
    ensures forall q: nat {:trigger BitAt(m'', q)} :: q < 32 * |m| ==>
      BitAt(m'', q) == BitAt(m, if base + position <= q < base + PAGE_BITS <= q + num then q + num else q)
  {
    hide Bit;
    forall q: nat | q < 32 * |m|
      ensures BitAt(m'', q) == BitAt(m, if base + position <= q < base + PAGE_BITS <= q + num then q + num else q)
    {
      if base + position <= q < base + PAGE_BITS {
        assert BitAt(m'', q) == BitAt(m', q + num);
      }
    }
  }

  /** The two shifts give the whole array back exactly when what the first pushes off the end
      of the page is what follows the page. */
  lemma RestoredExactly(m: seq<word>, m': seq<word>, m'': seq<word>, base: nat, position: nat, num: nat)
    requires num <= base + position && base + PAGE_BITS + num <= 32 * |m| && position < PAGE_BITS
    requires ShiftedRight(m, m', base, position, num) && ShiftedLeft(m', m'', base, position, num)
    ensures (forall q: nat :: q < 32 * |m| ==> BitAt(m'', q) == BitAt(m, q)) <==>
      (forall q: nat {:trigger BitAt(m, q)} :: base + position <= q < base + PAGE_BITS <= q + num ==> BitAt(m, q) == BitAt(m, q + num))
  {
    hide Bit;
    RightThenLeft(m, m', m'', base, position, num);
    if forall q: nat :: q < 32 * |m| ==> BitAt(m'', q) == BitAt(m, q) {
      forall q: nat | base + position <= q < base + PAGE_BITS <= q + num ensures BitAt(m, q) == BitAt(m, q + num) {
        assert BitAt(m'', q) == BitAt(m, q);
      }
    }
  }

  /** A page with its last bit set and no bit after it: the two shifts lose the bit. */
  lemma LastBitLost(m': seq<word>, m'': seq<word>)
    requires var m: seq<word> := seq(129, i => if i == 127 then WithBit(0, 31) else 0);
      ShiftedRight(m, m', 0, 1, 1) && ShiftedLeft(m', m'', 0, 1, 1)
    ensures var m: seq<word> := seq(129, i => if i == 127 then WithBit(0, 31) else 0);
      BitAt(m, 4095) && !BitAt(m'', 4095)
  {
    hide Bit, WithBit, Moved;
    var m: seq<word> := seq(129, i => if i == 127 then WithBit(0, 31) else 0);
    RightThenLeft(m, m', m'', 0, 1, 1);
    BitAfterWrite(0, 31, 31);
    ZeroBits(0);
    assert m[127] == WithBit(0, 31) && m[128] == 0;
    assert 4095 / 32 == 127 && 4095 % 32 == 31 && 4096 / 32 == 128 && 4096 % 32 == 0;
    assert !BitAt(m, 4096);
  }

  /** What insert_bitmap writes: four bits that tell free from taken and short from long, and
      for a long block one bit for every four of its size. */
  function Block(size: nat, free: bool): seq<bool> {
    if size < 4 then []
    else if size == 4 then [false, !free, free, true]
    else [false, !free, true, false] + seq(size / 4, _ => true)
  }

  /** The block tells whether it is free, whether it is a short one, and the size by fours. */
  lemma BlockTells(size: nat, free: bool, size': nat, free': bool)
    requires size >= 4 && size' >= 4
    ensures Block(size, free) == Block(size', free') <==> free == free' && size / 4 == size' / 4 && (size == 4 <==> size' == 4)
  {
    if Block(size, free) == Block(size', free') {
      assert Block(size, free)[1] == !free && Block(size', free')[1] == !free';
      assert |Block(size, free)| == 4 + if size == 4 then 0 else size / 4;
      assert |Block(size', free')| == 4 + if size' == 4 then 0 else size' / 4;
    }
  }

  ghost predicate Inserted(m: seq<word>, m': seq<word>, at: nat, bits: seq<bool>)
    requires at + |bits| <= 32 * |m|
  {
    |m'| == |m| && forall q: nat {:trigger BitAt(m', q)} :: q < 32 * |m| ==>
      BitAt(m', q) == if at <= q < at + |bits| then bits[q - at] else BitAt(m, q)
  }

  /** Bit `k` of `bits`, after those before it. */
  method PutNext(a: array<word>, p: nat, b: bool, ghost m: seq<word>, ghost bits: seq<bool>, ghost k: nat)
    requires k <= p < 32 * a.Length && |m| == a.Length && k < |bits| && b == bits[k]
    requires Inserted(m, a[..], p - k, bits[..k])
    modifies a
    ensures Inserted(m, a[..], p - k, bits[..k + 1])
  {
    hide Bit, WithBit, WithoutBit;
    ghost var before := a[..];
    a[p / 32] := if b then WithBit(a[p / 32], p % 32) else WithoutBit(a[p / 32], p % 32);
    WriteBitWrites(before, p, b);
    assert a[..] == WriteBit(before, p, b);
  }

  method InsertBitmap(a: array<word>, base: nat, position: nat, size: nat, free: bool)
    requires base + position + |Block(size, free)| <= 32 * a.Length
    modifies a
    ensures Inserted(old(a[..]), a[..], base + position, Block(size, free))
    ensures size >= 4 ==>
      && !BitAt(a[..], base + position) && BitAt(a[..], base + position + 1) == !free
      && BitAt(a[..], base + position + 2) == (size > 4 || free) && BitAt(a[..], base + position + 3) == (size == 4)
    ensures size > 4 ==> forall q: nat :: base + position + 4 <= q < base + position + 4 + size / 4 ==> BitAt(a[..], q)
  {
    hide Bit, BitAt, Inserted;
    ghost var m, bits := a[..], Block(size, free);
    EmptyInsertion(m, base + position, bits);
    var temp := position;
    if size >= 4 {
      PutNext(a, base + temp, false, m, bits, 0);
      PutNext(a, base + temp + 1, !free, m, bits, 1);
      PutNext(a, base + temp + 2, size > 4 || free, m, bits, 2);
      PutNext(a, base + temp + 3, size == 4, m, bits, 3);
      if size > 4 {
        temp := temp + 4;
        var temp2 := size / 4;
        while temp2 > 0
          invariant temp == position + 4 + size / 4 - temp2 && 0 <= temp2 <= size / 4
          invariant Inserted(m, a[..], base + position, bits[..temp - position])
          modifies a
        {
          PutNext(a, base + temp, true, m, bits, temp - position);
          temp := temp + 1;
          temp2 := temp2 - 1;
        }
      }
    }
    assert bits[..|bits|] == bits;
    InsertedBlock(m, a[..], base + position, size, free);
  }

  lemma InsertedBlock(m: seq<word>, m': seq<word>, at: nat, size: nat, free: bool)
    requires at + |Block(size, free)| <= 32 * |m| && Inserted(m, m', at, Block(size, free))
    ensures |m'| == |m|
    ensures size >= 4 ==>
      && !BitAt(m', at) && BitAt(m', at + 1) == !free && BitAt(m', at + 2) == (size > 4 || free) && BitAt(m', at + 3) == (size == 4)
    ensures size > 4 ==> forall q: nat :: at + 4 <= q < at + 4 + size / 4 ==> BitAt(m', q)
  {
    hide BitAt;
    var bits := Block(size, free);
    if size >= 4 {
      forall q: nat | at <= q < at + |bits| ensures BitAt(m', q) == bits[q - at] {}
    }
  }

  lemma EmptyInsertion(m: seq<word>, at: nat, bits: seq<bool>)
    requires at <= 32 * |m|
    ensures Inserted(m, m, at, bits[..0])
  {}

  /** A shift right makes room for a block: the bits from `position` on come after it, and a
      shift left takes the block out again. */
  lemma RoomForABlock(m: seq<word>, m1: seq<word>, m2: seq<word>, m3: seq<word>, base: nat, position: nat, bits: seq<bool>)
    requires |bits| <= base + position && base + PAGE_BITS + |bits| <= 32 * |m| && position + |bits| <= PAGE_BITS
    requires ShiftedRight(m, m1, base, position, |bits|)
    requires Inserted(m1, m2, base + position, bits)
    requires ShiftedLeft(m2, m3, base, position, |bits|)
    ensures forall q: nat :: base + position + |bits| <= q < base + PAGE_BITS ==> BitAt(m2, q) == BitAt(m, q - |bits|)
    ensures forall k :: 0 <= k < |bits| ==> BitAt(m2, base + position + k) == bits[k]
    ensures forall q: nat {:trigger BitAt(m3, q)} :: q < 32 * |m| ==>
      BitAt(m3, q) == BitAt(m, if base + position <= q < base + PAGE_BITS <= q + |bits| then q + |bits| else q)
  {
    hide Bit;
    forall q: nat | q < 32 * |m|
      ensures BitAt(m3, q) == BitAt(m, if base + position <= q < base + PAGE_BITS <= q + |bits| then q + |bits| else q)
    {
      if base + position <= q < base + PAGE_BITS {
        assert BitAt(m3, q) == BitAt(m2, q + |bits|) == BitAt(m1, q + |bits|);
      } else {
        assert BitAt(m3, q) == BitAt(m2, q) == BitAt(m1, q) == BitAt(m, q);
      }
    }
  }
}
