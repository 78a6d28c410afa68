/** The crate's weak entropy source, `magic()`: a process-wide counter that
    walks the recurrence d -> d*(d+1)*6+1 and hands out its previous value.
    The counter is modelled as an explicit object instead of a global, and the
    stack address that `_magic()` reads (a value nothing in the program
    determines) is a parameter of every draw. */
module Magic {
  import opened Word

  /** The counter's initial value, the same expression as MAGIC. */
  const SEED: u32 := 0x0078_7853

  /** One step of the counter's recurrence `d*(d+1)*6+1`. The crate wraps
      every operation modulo 2^32; wrapping each step and reducing the exact
      result once give the same word. `d*(d+1)` is even, so every value the
      recurrence produces is odd. */
  function Recurrence(d: u32): (r: u32)
    ensures r % 2 == 1
  {
    var n := d * (d + 1) * 6 + 1;
    var q := n / WORD;
    assert n == 2 * (3 * (d * (d + 1))) + 1;
    assert n % WORD == 2 * (3 * (d * (d + 1)) - 0x8000_0000 * q) + 1;
    n % WORD
  }

  /** The counter's next state after handing out `d`: the recurrence, unless
      that leaves the counter where it was, in which case the counter is
      reseeded from the address `addr`. */
  function NextState(d: u32, addr: u32): (next: u32)
    ensures next == d ==> addr == d
    ensures next != Recurrence(d) ==> Recurrence(d) == d && next == addr
  {
    var c := Recurrence(d);
    if c == d then addr else c
  }

  /** The recurrence has exactly one fixed point at 32 bits. Since
      d*(d+1)*6+1-d = (2d+1)*(3d+1) and 2d+1 is odd, d is fixed exactly when
      3d+1 wraps to 0, that is d = 0x55555555. */
  lemma FixedPoint(d: u32)
    ensures Recurrence(d) == d <==> d == 0x5555_5555
  {
    if Recurrence(d) == d {
      FixedPointUnique(d);
    } else {
      FixedPointAtThird();
    }
  }

  lemma FixedPointUnique(d: u32)
    requires Recurrence(d) == d
    ensures d == 0x5555_5555
  {
    FixedPointFactors(d);
    Pow2Is32();
    OddFactor(2 * d + 1, 3 * d + 1, 32);
    ThirdOfWord(d);
  }

  lemma FixedPointAtThird()
    ensures Recurrence(0x5555_5555) == 0x5555_5555
  {
  }

  /** A fixed point makes (2d+1)*(3d+1) a multiple of 2^32. */
  lemma FixedPointFactors(d: u32)
    requires Recurrence(d) == d
    ensures ((2 * d + 1) * (3 * d + 1)) % WORD == 0
  {
    var n := d * (d + 1) * 6 + 1;
    var q := n / WORD;
    assert n == WORD * q + d;
    assert (2 * d + 1) * (3 * d + 1) == n - d by {
      assert (2 * d + 1) * (3 * d + 1) == 6 * (d * d) + 5 * d + 1;
      assert d * (d + 1) * 6 == 6 * (d * d) + 6 * d;
    }
    MultipleMod(WORD, q);
  }

  /** The only word with 3d+1 a multiple of 2^32 is 0x55555555. */
  lemma ThirdOfWord(d: u32)
    requires (3 * d + 1) % WORD == 0
    ensures d == 0x5555_5555
  {
    var r := (3 * d + 1) / WORD;
    assert 3 * d + 1 == WORD * r;
    assert 0 < r < 3;
  }

  /** The initial counter value is not the fixed point, and a draw taken at
      the fixed point hands the counter over to the address instead of
      leaving it stuck. */
  lemma FixedPointRepair(addr: u32)
    ensures SEED != 0x5555_5555
    ensures NextState(0x5555_5555, addr) == addr
  {
    FixedPoint(0x5555_5555);
  }

  /** The next `n` values a counter in state `s` hands out, when every
      draw would read the address `addr`. */
  function Draws(s: u32, addr: u32, n: nat): (ds: seq<u32>)
    ensures |ds| == n
    ensures n > 0 ==> ds[0] == s
    decreases n
  {
    if n == 0 then [] else [s] + Draws(NextState(s, addr), addr, n - 1)
  }

  /** The counter's state after `n` draws from state `s`. */
  function After(s: u32, addr: u32, n: nat): u32
    decreases n
  {
    if n == 0 then s else After(NextState(s, addr), addr, n - 1)
  }

  /** `m + n` draws are `m` draws followed by `n` more from where the first
      `m` left the counter. */
  lemma {:induction false} DrawsSplit(s: u32, addr: u32, m: nat, n: nat)
    ensures Draws(s, addr, m + n) == Draws(s, addr, m) + Draws(After(s, addr, m), addr, n)
    ensures After(s, addr, m + n) == After(After(s, addr, m), addr, n)
    decreases m
  {
    if m > 0 {
      DrawsSplit(NextState(s, addr), addr, m - 1, n);
      assert m + n - 1 == (m - 1) + n;
    }
  }

  class MagicSource {
    /** The counter (`static mut MAGIC`). */
    var state: u32

    constructor ()
      ensures state == SEED
    {
      state := SEED;
    }

    /** `magic()`: return the current counter value and advance the counter;
        `addr` is the stack address `_magic()` would read. */
    method Draw(addr: u32) returns (d: u32)
      modifies this
      ensures d == old(state)
      ensures state == NextState(d, addr)
      ensures state != d || addr == d
    {
      d := state;
      state := Recurrence(d);
      if d == state {
        state := addr;
      }
    }

    /** `n` successive draws, in order. */
    method DrawMany(addr: u32, n: nat) returns (ds: seq<u32>)
      modifies this
      ensures ds == Draws(old(state), addr, n)
      ensures state == After(old(state), addr, n)
    {
      ds := [];
      var i := 0;
      while i < n
        invariant 0 <= i <= n
        invariant ds + Draws(state, addr, n - i) == Draws(old(state), addr, n)
        invariant After(state, addr, n - i) == After(old(state), addr, n)
      {
        ghost var rest := Draws(state, addr, n - i);
        var d := Draw(addr);
        assert rest == [d] + Draws(state, addr, n - i - 1);
        ds := ds + [d];
        i := i + 1;
      }
    }
  }
}
