/** 32-bit machine words, the C operators the kernel applies to them, and the
    bit arrays it builds out of them. */
module Words {
  const WORD_LIMIT := 0x1_0000_0000

  type word = w: nat | w < WORD_LIMIT

  function Pow2(k: nat): (p: nat)
    ensures p > 0
  {
    if k == 0 then 1 else 2 * Pow2(k - 1)
  }

  function Digit(b: bool): nat {
    if b then 1 else 0
  }

  /** `a | b`, digit by digit. */
  function Or(a: nat, b: nat): nat
    decreases a + b
  {
    if a == 0 && b == 0 then 0 else 2 * Or(a / 2, b / 2) + Digit(a % 2 == 1 || b % 2 == 1)
  }

  /** `a & b`, digit by digit. */
  function And(a: nat, b: nat): (r: nat)
    ensures r <= a
  {
    if a == 0 then 0 else 2 * And(a / 2, b / 2) + Digit(a % 2 == 1 && b % 2 == 1)
  }

  /** `~w` on an `n`-bit word. */
  function Not(w: nat, n: nat): nat {
    if n == 0 then 0 else 2 * Not(w / 2, n - 1) + Digit(w % 2 == 0)
  }

  /** `w >> k`. */
  function Shr(w: nat, k: nat): nat {
    if k == 0 then w else Shr(w / 2, k - 1)
  }

  /** `(w >> k) & 1`, read as a truth value. */
  predicate Bit(w: nat, k: nat) {
    And(Shr(w, k), 1) == 1
  }

  lemma {:induction false} BitIsOdd(w: nat, k: nat)
    ensures Bit(w, k) <==> Shr(w, k) % 2 == 1
  {
    assert And(Shr(w, k) / 2, 0) == 0 by { AndZero(Shr(w, k) / 2); }
  }

  lemma AndZero(a: nat)
    ensures And(a, 0) == 0
  {}

  lemma {:induction false} OrDigits(a: nat, b: nat, k: nat)
    ensures Shr(Or(a, b), k) % 2 == 1 <==> Shr(a, k) % 2 == 1 || Shr(b, k) % 2 == 1
  {
    assert Or(a, b) / 2 == Or(a / 2, b / 2);
    if k > 0 { OrDigits(a / 2, b / 2, k - 1); }
  }

  lemma {:induction false} AndDigits(a: nat, b: nat, k: nat)
    ensures Shr(And(a, b), k) % 2 == 1 <==> Shr(a, k) % 2 == 1 && Shr(b, k) % 2 == 1
  {
    assert And(a, b) / 2 == And(a / 2, b / 2);
    if k > 0 { AndDigits(a / 2, b / 2, k - 1); }
  }

  lemma {:induction false} NotDigits(w: nat, n: nat, k: nat)
    requires k < n
    ensures Shr(Not(w, n), k) % 2 == 1 <==> Shr(w, k) % 2 == 0
  {
    assert Not(w, n) / 2 == Not(w / 2, n - 1);
    if k > 0 { NotDigits(w / 2, n - 1, k - 1); }
  }

  lemma {:induction false} PowDigits(k: nat, j: nat)
    ensures Shr(Pow2(k), j) % 2 == 1 <==> j == k
  {
    if k > 0 && j > 0 {
      PowDigits(k - 1, j - 1);
    } else if j > 0 {
      ShrZero(j - 1);
    }
  }

  lemma ShrZero(k: nat)
    ensures Shr(0, k) == 0
  {}

  lemma {:induction false} OrFits(a: nat, b: nat, n: nat)
    requires a < Pow2(n) && b < Pow2(n)
    ensures Or(a, b) < Pow2(n)
  {
    if n > 0 { OrFits(a / 2, b / 2, n - 1); }
  }

  lemma PowMonotone(k: nat, n: nat)
    requires k < n
    ensures Pow2(k) < Pow2(n)
  {}

  lemma Pow32()
    ensures Pow2(32) == WORD_LIMIT
  {
    assert Pow2(8) == 256;
    assert Pow2(16) == 0x1_0000;
    assert Pow2(24) == 0x100_0000;
  }

  /** `w | (1 << k)`. */
  function WithBit(w: word, k: nat): word
    requires k < 32
  {
    Pow32(); PowMonotone(k, 32); OrFits(w, Pow2(k), 32);
    Or(w, Pow2(k))
  }

  /** `w & ~(1 << k)`. */
  function WithoutBit(w: word, k: nat): word
    requires k < 32
  {
    And(w, Not(Pow2(k), 32))
  }

  /** Writing bit `k` of a word changes that bit and no other. */
  lemma BitAfterWrite(w: word, k: nat, j: nat)
    requires k < 32 && j < 32
    ensures Bit(WithBit(w, k), j) == (j == k || Bit(w, j))
    ensures Bit(WithoutBit(w, k), j) == (j != k && Bit(w, j))
  {
    BitIsOdd(w, j);
    BitIsOdd(WithBit(w, k), j);
    BitIsOdd(WithoutBit(w, k), j);
    OrDigits(w, Pow2(k), j);
    AndDigits(w, Not(Pow2(k), 32), j);
    NotDigits(Pow2(k), 32, j);
    PowDigits(k, j);
  }

  /** Bit `p` of a word array, counted from bit 0 of word 0. */
  predicate BitAt(m: seq<word>, p: nat)
    requires p < 32 * |m|
  {
    Bit(m[p / 32], p % 32)
  }

  /** `m'` is `m` with bit `p` set to `b`. */
  ghost predicate Written(m: seq<word>, m': seq<word>, p: nat, b: bool)
    requires p < 32 * |m|
  {
    |m'| == |m| && forall q: nat :: q < 32 * |m| ==> BitAt(m', q) == if q == p then b else BitAt(m, q)
  }

  /** The word array after the kernel writes bit `p`: `|=` to set it, `&= ~` to clear it. */
  function WriteBit(m: seq<word>, p: nat, b: bool): seq<word>
    requires p < 32 * |m|
  {
    m[p / 32 := if b then WithBit(m[p / 32], p % 32) else WithoutBit(m[p / 32], p % 32)]
  }

  lemma WriteBitWrites(m: seq<word>, p: nat, b: bool)
    requires p < 32 * |m|
    ensures Written(m, WriteBit(m, p, b), p, b)
  {
    var m' := WriteBit(m, p, b);
    forall q: nat | q < 32 * |m| ensures BitAt(m', q) == if q == p then b else BitAt(m, q) {
      BitAfterWrite(m[p / 32], p % 32, q % 32);
    }
  }
}
