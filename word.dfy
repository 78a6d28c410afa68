/** The fixed-width integer every container in this model stores.
    The crate instantiates one generic container for twelve integer widths;
    this model fixes one of them, `u32`, as the integers 0 .. 2^32-1 with the
    crate's operations written out: `+` and `*` wrap modulo 2^32 (the crate
    demands a build with overflow checks off), `^` is bitwise exclusive or,
    and the masks `& 31`, `& 32` and `& !31` are stated through division by
    32. */
module Word {

  const WORD: int := 0x1_0000_0000

  type u32 = x: int | 0 <= x < WORD

  /** Wrapping addition. */
  function Add(a: u32, b: u32): (r: u32)
    ensures r == a + b || r == a + b - WORD
  {
    (a + b) % WORD
  }

  /** Wrapping multiplication: exact when the product fits, and the
      product of two odd words stays odd after wrapping. */
  function Mul(a: u32, b: u32): (r: u32)
    ensures a * b < WORD ==> r == a * b
    ensures a % 2 == 1 && b % 2 == 1 ==> r % 2 == 1
  {
    var n := a * b;
    OddProductWraps(a, b);
    n % WORD
  }

  /** 2^k. */
  function Pow2(k: nat): (p: nat)
    ensures p >= 1
  {
    if k == 0 then 1 else 2 * Pow2(k - 1)
  }

  /** Exclusive or of the low `k` bits of `a` and `b`, lowest bit first. */
  function XorBits(a: nat, b: nat, k: nat): nat {
    if k == 0 then 0 else 2 * XorBits(a / 2, b / 2, k - 1) + (if a % 2 == b % 2 then 0 else 1)
  }

  /** `a ^ b` on 32-bit words: zero exactly when the two words agree. */
  function Xor(a: u32, b: u32): (r: u32)
    ensures r == 0 <==> a == b
  {
    XorBitsBound(a, b, 32);
    Pow2Is32();
    XorBitsSelf(a, 32);
    XorBitsZeroOnlySelf(a, b, 32);
    XorBits(a, b, 32)
  }

  /** Wrapping subtraction. */
  function Sub(a: u32, b: u32): (r: u32)
    ensures r == a - b || r == a - b + WORD
  {
    (a - b) % WORD
  }

  /** Bitwise and of the low `k` bits, lowest bit first. */
  function AndBits(a: nat, b: nat, k: nat): nat {
    if k == 0 then 0 else 2 * AndBits(a / 2, b / 2, k - 1) + (if a % 2 == 1 && b % 2 == 1 then 1 else 0)
  }

  /** Bitwise or of the low `k` bits, lowest bit first. */
  function OrBits(a: nat, b: nat, k: nat): nat {
    if k == 0 then 0 else 2 * OrBits(a / 2, b / 2, k - 1) + (if a % 2 == 1 || b % 2 == 1 then 1 else 0)
  }

  /** `a & b` on 32-bit words: no larger than either operand. */
  function And(a: u32, b: u32): (r: u32)
    ensures r <= a && r <= b
  {
    AndBitsBound(a, b, 32);
    AndBitsBelow(a, b, 32);
    Pow2Is32();
    AndBits(a, b, 32)
  }

  /** `a | b` on 32-bit words: no smaller than either operand. */
  function Or(a: u32, b: u32): (r: u32)
    ensures r >= a && r >= b
  {
    OrBitsBound(a, b, 32);
    Pow2Is32();
    OrBitsAbove(a, b, 32);
    OrBits(a, b, 32)
  }

  /** `a << b` with overflow checks off: the shift amount is taken modulo
      the width and the bits shifted past bit 31 are lost. */
  function Shl(a: u32, b: u32): (r: u32)
    ensures a * Pow2(b % 32) < WORD ==> r == a * Pow2(b % 32)
  {
    ShlByExact(a, b % 32);
    ShlBy(a, b % 32)
  }

  /** `a >> b` with overflow checks off: a logical shift by `b` modulo the
      width. */
  function Shr(a: u32, b: u32): (r: u32)
    ensures r <= a
  {
    ShrBy(a, b % 32)
  }

  /** Double `k` times, wrapping. */
  function ShlBy(a: u32, k: nat): u32
    decreases k
  {
    if k == 0 then a else ShlBy(Add(a, a), k - 1)
  }

  /** Halve `k` times, rounding down. */
  function ShrBy(a: u32, k: nat): (r: u32)
    ensures r <= a
    decreases k
  {
    if k == 0 then a else ShrBy(a / 2, k - 1)
  }

  /** `status & 31`: the write phase. A write in phase 0 reseeds. */
  function Phase(s: u32): (p: nat)
    ensures p < 32
  {
    s % 32
  }

  /** `status & 32 != 0`: bit 5, which picks the slot an ordinary write
      changes. */
  predicate Bit5(s: u32)
    ensures Bit5(s) <==> s % 64 >= 32
  {
    var q := s / 64;
    assert s == 64 * q + s % 64;
    assert s / 32 == 2 * q + (s % 64) / 32;
    (s / 32) % 2 == 1
  }

  /** `t & !31`, the crate's `t & (-32i128) as u32`: `t` with its low five
      bits cleared. */
  function ClearLow5(t: u32): (r: u32)
    ensures r % 32 == 0 && r <= t && t - r < 32
  {
    t - t % 32
  }

  /** `Oint::MAGIC`: `7895123 | (7895123 << 60)` cast to the container's
      width. At 32 bits the shifted half lies wholly above bit 31 and is
      truncated away, leaving 7895123 (0x787853). */
  const MAGIC: u32 := 0x0078_7853

  /** The additive constant of the reseed quantity (`3511 as u32`). */
  const RESEED_BASE: u32 := 3511

  /** How far one write moves the phase: the low five bits of MAGIC. */
  const PHASE_STEP: nat := 19

  /** Adding MAGIC, after adding any word whose low five bits are clear,
      moves the phase by exactly PHASE_STEP, whatever carries out of bit 31
      are lost. */
  lemma PhaseOfAdvance(s: u32, t: u32)
    ensures Phase(Add(s, MAGIC)) == (Phase(s) + PHASE_STEP) % 32
    ensures Phase(Add(Add(s, ClearLow5(t)), MAGIC)) == (Phase(s) + PHASE_STEP) % 32
  {
    var c := ClearLow5(t);
    PhaseOfAdd(s, MAGIC);
    PhaseOfAdd(s, c);
    PhaseOfAdd(Add(s, c), MAGIC);
    assert MAGIC % 32 == PHASE_STEP;
  }

  /** The phase of a wrapping sum is the sum of the phases, modulo 32:
      wrapping subtracts 2^32, a multiple of 32. */
  lemma PhaseOfAdd(a: u32, b: u32)
    ensures Phase(Add(a, b)) == (Phase(a) + Phase(b)) % 32
  {
    var x := a + b;
    if x >= WORD {
      ShiftKeepsMod32(x - WORD, 0x800_0000);
    }
    ShiftKeepsMod32(a % 32 + b % 32, a / 32 + b / 32);
  }

  lemma ShiftKeepsMod32(x: int, m: int)
    ensures (x + 32 * m) % 32 == x % 32
  {
  }

  /** PHASE_STEP is odd, hence invertible modulo 32 (19 * 27 = 513 = 16 * 32
      + 1): stepping the phase is a bijection on the 32 phases. */
  lemma PhaseStepInvertible(i: int, j: int)
    requires (PHASE_STEP * i) % 32 == (PHASE_STEP * j) % 32
    ensures i % 32 == j % 32
  {
    var d := i - j;
    var qi, qj := (PHASE_STEP * i) / 32, (PHASE_STEP * j) / 32;
    assert PHASE_STEP * d == 32 * (qi - qj);
    assert d == 27 * (PHASE_STEP * d) - 512 * d;
    assert i == j + 32 * (27 * (qi - qj) - 16 * d);
    ShiftKeepsMod32(j, 27 * (qi - qj) - 16 * d);
  }

  /** The phase a sequence of `n` steps reaches from phase 0 is 0 exactly
      when `n` is a multiple of 32. */
  lemma PhaseReturns(n: int)
    ensures (PHASE_STEP * n) % 32 == 0 <==> n % 32 == 0
  {
    if n % 32 == 0 {
      ShiftKeepsMod32(0, PHASE_STEP * (n / 32));
    }
    if (PHASE_STEP * n) % 32 == 0 {
      PhaseStepInvertible(n, 0);
    }
  }

  /** Whatever phase a run of writes starts from, exactly one of any 32
      consecutive writes finds the phase at 0: some step `j` in the window
      reaches it ... */
  lemma PhaseHits(p: int, i: int) returns (j: int)
    ensures i <= j < i + 32 && (p + PHASE_STEP * j) % 32 == 0
  {
    var r := (p + PHASE_STEP * i) % 32;
    var a := (p + PHASE_STEP * i) / 32;
    var u := 27 * (32 - r);
    var t := u % 32;
    var b := u / 32;
    j := i + t;
    assert p + PHASE_STEP * j == 32 * (a + 1 + 16 * (32 - r) - 19 * b);
    ShiftKeepsMod32(0, a + 1 + 16 * (32 - r) - 19 * b);
  }

  /** ... and no other step in the window does. */
  lemma PhaseHitsOnce(p: int, j: int, k: int)
    requires (p + PHASE_STEP * j) % 32 == 0 && (p + PHASE_STEP * k) % 32 == 0
    requires j - 32 < k < j + 32
    ensures j == k
  {
    var a := (p + PHASE_STEP * j) / 32;
    var b := (p + PHASE_STEP * k) / 32;
    assert PHASE_STEP * j == PHASE_STEP * k + 32 * (a - b);
    ShiftKeepsMod32(PHASE_STEP * k, a - b);
    PhaseStepInvertible(j, k);
  }

  // ---- 2^32 and the bitwise algebra ----

  lemma {:induction false} Pow2Add(m: nat, n: nat)
    ensures Pow2(m + n) == Pow2(m) * Pow2(n)
  {
    if m > 0 {
      Pow2Add(m - 1, n);
    }
  }

  lemma Pow2Is32()
    ensures Pow2(32) == WORD
  {
    assert Pow2(4) == 16;
    Pow2Add(4, 4);
    Pow2Add(8, 8);
    Pow2Add(16, 16);
  }

  lemma Halves(q: nat, r: nat)
    requires r < 2
    ensures (2 * q + r) / 2 == q && (2 * q + r) % 2 == r
  {
  }

  /** One unfolding of XorBits, read back: its lowest bit and the rest. */
  lemma XorBitsHalves(a: nat, b: nat, k: nat)
    requires k > 0
    ensures XorBits(a, b, k) / 2 == XorBits(a / 2, b / 2, k - 1)
    ensures XorBits(a, b, k) % 2 == if a % 2 == b % 2 then 0 else 1
  {
    Halves(XorBits(a / 2, b / 2, k - 1), if a % 2 == b % 2 then 0 else 1);
  }

  lemma {:induction false} XorBitsBound(a: nat, b: nat, k: nat)
    ensures XorBits(a, b, k) < Pow2(k)
  {
    if k > 0 {
      XorBitsBound(a / 2, b / 2, k - 1);
    }
  }

  lemma {:induction false} AndBitsBound(a: nat, b: nat, k: nat)
    ensures AndBits(a, b, k) < Pow2(k)
  {
    if k > 0 {
      AndBitsBound(a / 2, b / 2, k - 1);
    }
  }

  lemma {:induction false} OrBitsBound(a: nat, b: nat, k: nat)
    ensures OrBits(a, b, k) < Pow2(k)
  {
    if k > 0 {
      OrBitsBound(a / 2, b / 2, k - 1);
    }
  }

  lemma {:induction false} XorBitsComm(a: nat, b: nat, k: nat)
    ensures XorBits(a, b, k) == XorBits(b, a, k)
  {
    if k > 0 {
      XorBitsComm(a / 2, b / 2, k - 1);
    }
  }

  lemma {:induction false} XorBitsAssoc(a: nat, b: nat, c: nat, k: nat)
    ensures XorBits(XorBits(a, b, k), c, k) == XorBits(a, XorBits(b, c, k), k)
  {
    if k > 0 {
      XorBitsHalves(a, b, k);
      XorBitsHalves(b, c, k);
      XorBitsAssoc(a / 2, b / 2, c / 2, k - 1);
    }
  }

  lemma {:induction false} XorBitsSelf(a: nat, k: nat)
    ensures XorBits(a, a, k) == 0
  {
    if k > 0 {
      XorBitsSelf(a / 2, k - 1);
    }
  }

  lemma {:induction false} XorBitsZero(a: nat, k: nat)
    requires a < Pow2(k)
    ensures XorBits(a, 0, k) == a
  {
    if k > 0 {
      XorBitsZero(a / 2, k - 1);
    }
  }

  /** The product of two odd numbers stays odd modulo 2^32. */
  lemma OddProductWraps(a: nat, b: nat)
    ensures a * b < WORD ==> (a * b) % WORD == a * b
    ensures a % 2 == 1 && b % 2 == 1 ==> ((a * b) % WORD) % 2 == 1
  {
    if a % 2 == 1 && b % 2 == 1 {
      var i, j := a / 2, b / 2;
      var q := (a * b) / WORD;
      assert a * b == 2 * (2 * i * j + i + j) + 1 by {
        assert a == 2 * i + 1 && b == 2 * j + 1;
      }
      assert (a * b) % WORD == 2 * (2 * i * j + i + j - 0x8000_0000 * q) + 1;
    }
  }

  /** Two words whose exclusive or is 0 are equal. */
  lemma {:induction false} XorBitsZeroOnlySelf(a: nat, b: nat, k: nat)
    requires a < Pow2(k) && b < Pow2(k)
    ensures XorBits(a, b, k) == 0 ==> a == b
  {
    if k > 0 && XorBits(a, b, k) == 0 {
      XorBitsHalves(a, b, k);
      XorBitsZeroOnlySelf(a / 2, b / 2, k - 1);
    }
  }

  /** Bitwise and keeps only bits both operands have. */
  lemma {:induction false} AndBitsBelow(a: nat, b: nat, k: nat)
    ensures AndBits(a, b, k) <= a && AndBits(a, b, k) <= b
  {
    if k > 0 {
      AndBitsBelow(a / 2, b / 2, k - 1);
    }
  }

  /** Bitwise or keeps every bit either operand has. */
  lemma {:induction false} OrBitsAbove(a: nat, b: nat, k: nat)
    requires a < Pow2(k) && b < Pow2(k)
    ensures OrBits(a, b, k) >= a && OrBits(a, b, k) >= b
  {
    if k > 0 {
      OrBitsAbove(a / 2, b / 2, k - 1);
    }
  }

  /** Doubling `k` times multiplies by 2^k while nothing is lost. */
  lemma {:induction false} ShlByExact(a: u32, k: nat)
    ensures a * Pow2(k) < WORD ==> ShlBy(a, k) == a * Pow2(k)
    decreases k
  {
    if k > 0 && a * Pow2(k) < WORD {
      var p := Pow2(k - 1);
      var d := 2 * a;
      assert a * Pow2(k) == d * p by {
        assert Pow2(k) == 2 * p;
      }
      MulAtLeast(d, p);
      assert Add(a, a) == d;
      ShlByExact(d, k - 1);
    }
  }

  lemma MulAtLeast(x: nat, p: nat)
    requires p >= 1
    ensures x <= x * p
  {
    assert x * p == x + x * (p - 1);
  }

  /** A multiple of a positive modulus leaves no remainder. */
  lemma MultipleMod(m: int, q: int)
    requires m > 0
    ensures (m * q) % m == 0
  {
    var r := (m * q) % m;
    var t := (m * q) / m;
    assert m * q == m * t + r;
    var d := q - t;
    assert m * d == r by {
      assert m * q - m * t == m * d;
    }
  }

  /** An odd factor does not help a product reach a multiple of 2^k: the
      other factor must be one already. */
  lemma {:induction false} OddFactor(a: int, b: int, k: nat)
    requires a % 2 == 1
    requires (a * b) % Pow2(k) == 0
    ensures b % Pow2(k) == 0
    decreases k
  {
    if k > 0 {
      var p := Pow2(k - 1);
      var q := (a * b) / (2 * p);
      assert a * b == 2 * p * q;
      var h := a / 2;
      assert a * b == 2 * h * b + b by {
        assert a == 2 * h + 1;
      }
      var c := p * q - h * b;
      assert b == 2 * c;
      assert a * c == p * q by {
        assert a * b == a * (2 * c) == 2 * (a * c);
      }
      MultipleMod(p, q);
      OddFactor(a, c, k - 1);
      var r := c / p;
      assert b == (2 * p) * r;
      MultipleMod(2 * p, r);
    }
  }

  lemma XorComm(a: u32, b: u32)
    ensures Xor(a, b) == Xor(b, a)
  {
    XorBitsComm(a, b, 32);
  }

  lemma XorAssoc(a: u32, b: u32, c: u32)
    ensures Xor(Xor(a, b), c) == Xor(a, Xor(b, c))
  {
    XorBitsAssoc(a, b, c, 32);
  }

  lemma XorSelf(a: u32)
    ensures Xor(a, a) == 0
  {
    XorBitsSelf(a, 32);
  }

  lemma XorZero(a: u32)
    ensures Xor(a, 0) == a && Xor(0, a) == a
  {
    Pow2Is32();
    XorBitsZero(a, 32);
    XorComm(a, 0);
  }

  /** Masking twice with the same word undoes the mask. */
  lemma XorCancel(a: u32, b: u32)
    ensures Xor(Xor(a, b), b) == a
    ensures Xor(b, Xor(b, a)) == a
  {
    XorAssoc(a, b, b);
    XorSelf(b);
    XorZero(a);
    XorAssoc(b, b, a);
  }

  /** Two masked words fold to the fold of the words, masked twice. */
  lemma XorMix(a: u32, b: u32, p: u32, q: u32)
    ensures Xor(Xor(a, p), Xor(b, q)) == Xor(Xor(Xor(a, b), p), q)
  {
    XorAssoc(a, p, Xor(b, q));
    XorAssoc(p, b, q);
    XorComm(p, b);
    XorAssoc(b, p, q);
    XorAssoc(a, b, Xor(p, q));
    XorAssoc(Xor(a, b), p, q);
  }

  /** The order of two masks does not matter. */
  lemma XorSwapLast(x: u32, p: u32, q: u32)
    ensures Xor(Xor(x, p), q) == Xor(Xor(x, q), p)
  {
    XorAssoc(x, p, q);
    XorComm(p, q);
    XorAssoc(x, q, p);
  }
}
