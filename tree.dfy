/** The obfuscated integer as a value: a status word and a tree of XOR
    shares whose fold is the stored integer (`Ou32` and `Eu32` of the crate's
    u32 instantiation). The crate keeps each child in its own box and owns it
    exclusively, so a child is a plain nested value here; module Heap models
    the same tree as objects updated in place and proves its `assign`
    against `Ou32.Assign` below.

    Every constructor takes the values its calls to `magic()` return, in the
    order the crate makes those calls, as parameters d0, d1, ... . */
module Tree {
  import opened Word

  /** One half of a node: a raw leaf or a nested container. */
  datatype Slot = Leaf(x: u32) | Child(c: Ou32)
  {
    function Value(): u32 {
      match this
      case Leaf(x) => x
      case Child(c) => c.Value()
    }
  }

  /** A container: the write-count word `status` and the share tree `val`. */
  datatype Ou32 = Ou32(status: u32, val: Eu32)
  {
    /** `value()`: the fold of the share tree; the status is not read. */
    function Value(): u32 {
      val.Value()
    }

    /** How many container levels the tree has (a leaf-only node is 1). */
    function Height(): (h: nat)
      ensures h >= 1
    {
      val.Height()
    }

    /** `new_basic(v)`: two magic draws. The first becomes the status (the
        crate computes `(d0 ^ v) ^ v`), the second splits `v` into two
        leaves. */
    static function NewBasic(v: u32, d0: u32, d1: u32): (r: Ou32)
      ensures r.Value() == v
      ensures r.status == d0
      ensures r.val.SS? && r.Height() == 1
    {
      var m := Xor(d0, v);
      XorCancel(d0, v);
      Ou32(Xor(m, v), Eu32.NewBasic(v, d1))
    }

    /** `new_cs(v, c1)`: wrap the existing container `c1` as the first slot
        next to a leaf chosen so that the fold is `v`; one magic draw, mixed
        into the status. */
    static function NewCs(v: u32, c1: Ou32, d0: u32): (r: Ou32)
      ensures r.Value() == v
      ensures r.val.CS? && r.val.c1 == c1
      ensures r.status == Xor(Xor(d0, MAGIC), v)
    {
      var m := Xor(d0, MAGIC);
      Ou32(Xor(m, v), Eu32.NewCs(v, c1))
    }

    /** `new_sc(v, c2)`: as NewCs with the existing container as the second
        slot. */
    static function NewSc(v: u32, c2: Ou32, d0: u32): (r: Ou32)
      ensures r.Value() == v
      ensures r.val.SC? && r.val.c2 == c2
      ensures r.status == Xor(Xor(d0, MAGIC), v)
    {
      var m := Xor(d0, MAGIC);
      Ou32(Xor(m, v), Eu32.NewSc(v, c2))
    }

    /** `new(v)`: two basic children whose values are `v ^ m` and `m`, with
        `m = d0 ^ MAGIC`; five magic draws (d0 here, d1 d2 for the first
        child, d3 d4 for the second). */
    static function New(v: u32, d0: u32, d1: u32, d2: u32, d3: u32, d4: u32): (r: Ou32)
      ensures r.Value() == v
      ensures r.val.CC? && r.val.c1.val.SS? && r.val.c2.val.SS? && r.Height() == 2
      ensures r.val.c2.Value() == Xor(d0, MAGIC)
    {
      var m := Xor(d0, MAGIC);
      XorCancel(v, m);
      Ou32(Xor(m, v), Eu32.NewCc(NewBasic(Xor(v, m), d1, d2), NewBasic(m, d3, d4)))
    }

    /** `new_cssc(v)`: a three-level tree CC(CS(basic, leaf), SC(leaf,
        basic)); seven magic draws in evaluation order: d0 here, d1 d2 for
        the basic inside the CS child, d3 for that CS child, d4 d5 for the
        basic inside the SC child, d6 for that SC child. */
    static function NewCssc(v: u32, d0: u32, d1: u32, d2: u32, d3: u32, d4: u32, d5: u32, d6: u32): (r: Ou32)
      ensures r.Value() == v
      ensures r.Height() == 3
      ensures r.val.CC? && r.val.c1.val.CS? && r.val.c2.val.SC?
      ensures r.val.c1.val.c1.val.SS? && r.val.c2.val.c2.val.SS?
      ensures r.val.c2.Value() == Xor(d0, MAGIC)
    {
      var m := Xor(d0, MAGIC);
      var b1 := NewBasic(Xor(Xor(m, v), MAGIC), d1, d2);
      var b2 := NewBasic(Xor(v, MAGIC), d4, d5);
      var c1 := NewCs(Xor(v, m), b1, d3);
      var c2 := NewSc(m, b2, d6);
      assert c1.val.Height() == 1 + b1.Height();
      assert c2.val.Height() == 1 + b2.Height();
      var e := Eu32.NewCc(c1, c2);
      assert e.Height() == 1 + c1.Height();
      XorCancel(v, m);
      Ou32(Xor(m, v), e)
    }

    /** `from_raw((status, val))`. */
    static function FromRaw(raw: (u32, Eu32)): (r: Ou32)
      ensures r.Value() == raw.1.Value() && r.status == raw.0
    {
      Ou32(raw.0, raw.1)
    }

    /** `into_raw()`. */
    function IntoRaw(): (raw: (u32, Eu32))
      ensures raw.1.Value() == Value() && raw.0 == status
    {
      (status, val)
    }

    /** `assign(v)`, the write protocol. A write in phase 0 (status & 31 ==
        0) reseeds: it derives `tmp = 3511 + old * MAGIC`, adds `tmp & !31` to
        the status and changes both slots. Any other write changes one slot:
        the first when bit 5 of the status is clear, the second otherwise.
        Every write then adds MAGIC to the status. */
    function Assign(v: u32): (r: Ou32)
      ensures r.Value() == v
      ensures r.Height() == Height()
      ensures Phase(r.status) == (Phase(status) + PHASE_STEP) % 32
    {
      var cur := Value();
      var tmp := ReseedTmp(cur);
      PhaseOfAdvance(status, tmp);
      if Phase(status) == 0 then
        var delta := Xor(v, Xor(cur, tmp));
        ReseedUnmasks(cur, v, tmp);
        Ou32(Add(Add(status, ClearLow5(tmp)), MAGIC), val.Reseed(delta, tmp))
      else
        var delta := Xor(v, cur);
        XorComm(v, cur);
        XorCancel(v, cur);
        Ou32(Add(status, MAGIC), if Bit5(status) then val.XorSecond(delta) else val.XorFirst(delta))
    }

    /** A compound assignment `self op= rhs`: `assign(value() op rhs)`.
        Division and remainder by zero panic before anything is written,
        which is `None` here. */
    function OpAssign(op: BinOp, rhs: u32): (r: Option<Ou32>)
      ensures r.None? <==> (op.DivOp? || op.RemOp?) && rhs == 0
      ensures r.Some? ==> Some(r.value.Value()) == Apply(op, Value(), rhs)
      ensures r.Some? ==> r.value.Height() == Height()
    {
      match Apply(op, Value(), rhs)
      case None => None
      case Some(n) => Some(Assign(n))
    }

    /** `==` between two containers compares their values, not their
        layout. */
    function Eq(other: Ou32): bool {
      Value() == other.Value()
    }

    /** `<` between two containers compares their values. */
    function Lt(other: Ou32): bool {
      Value() < other.Value()
    }

    /** `==` against a raw integer. */
    function EqRaw(x: u32): bool {
      Value() == x
    }

    /** `<` against a raw integer. */
    function LtRaw(x: u32): bool {
      Value() < x
    }
  }

  datatype Option<T> = None | Some(value: T)

  /** The binary operators the crate lifts to compound assignments. */
  datatype BinOp = AddOp | SubOp | MulOp | DivOp | RemOp | ShlOp | ShrOp | AndOp | OrOp | XorOp

  /** `a op b` on u32 with overflow checks off; `None` where Rust panics. */
  function Apply(op: BinOp, a: u32, b: u32): (r: Option<u32>)
    ensures r.None? <==> (op.DivOp? || op.RemOp?) && b == 0
  {
    match op
    case AddOp => Some(Add(a, b))
    case SubOp => Some(Sub(a, b))
    case MulOp => Some(Mul(a, b))
    case DivOp => if b == 0 then None else Some(a / b)
    case RemOp => if b == 0 then None else Some(a % b)
    case ShlOp => Some(Shl(a, b))
    case ShrOp => Some(Shr(a, b))
    case AndOp => Some(And(a, b))
    case OrOp => Some(Or(a, b))
    case XorOp => Some(Xor(a, b))
  }

  /** The container after the writes `vs`, in order, starting from `x`. */
  function Writes(x: Ou32, vs: seq<u32>): (r: Ou32)
    ensures |vs| > 0 ==> r.Value() == vs[|vs| - 1]
    ensures r.Height() == x.Height()
    ensures Phase(r.status) == (Phase(x.status) + PHASE_STEP * |vs|) % 32
  {
    if |vs| == 0 then x
    else
      var before := Writes(x, vs[..|vs| - 1]);
      PhaseStepsAdd(Phase(x.status), |vs| - 1);
      before.Assign(vs[|vs| - 1])
  }

  /** One more step after n steps is n+1 steps, modulo 32. */
  lemma PhaseStepsAdd(p: nat, n: nat)
    ensures ((p + PHASE_STEP * n) % 32 + PHASE_STEP) % 32 == (p + PHASE_STEP * (n + 1)) % 32
  {
    var q := (p + PHASE_STEP * n) / 32;
    assert p + PHASE_STEP * (n + 1) == (p + PHASE_STEP * n) % 32 + PHASE_STEP + 32 * q;
    ShiftKeepsMod32((p + PHASE_STEP * n) % 32 + PHASE_STEP, q);
  }

  /** Two containers have the same layout when they have the same shape
      and the same status words at every node; only their leaf words may
      differ. */
  predicate SameLayout(x: Ou32, y: Ou32) {
    x.status == y.status &&
    match (x.val, y.val)
    case (SS(_, _), SS(_, _)) => true
    case (SC(_, c), SC(_, d)) => SameLayout(c, d)
    case (CS(c, _), CS(d, _)) => SameLayout(c, d)
    case (CC(c1, c2), CC(d1, d2)) => SameLayout(c1, d1) && SameLayout(c2, d2)
    case _ => false
  }

  /** The reseed quantity `3511 + old * MAGIC` a phase-0 write derives from
      the old value. */
  function ReseedTmp(cur: u32): u32 {
    Add(RESEED_BASE, Mul(cur, MAGIC))
  }

  /** The reseed write's masks cancel: folding `delta = v ^ (old ^ tmp)`
      and `tmp` into `old` gives `v`. */
  lemma ReseedUnmasks(cur: u32, v: u32, tmp: u32)
    ensures Xor(Xor(cur, Xor(v, Xor(cur, tmp))), tmp) == v
  {
    XorComm(cur, tmp);
    XorAssoc(v, tmp, cur);
    XorComm(v, tmp);
    XorAssoc(tmp, v, cur);
    XorComm(cur, Xor(Xor(v, tmp), cur));
    XorCancel(Xor(v, tmp), cur);
    XorCancel(v, tmp);
  }

  /** A share tree: every node has exactly two slots, each a leaf or an
      owned nested container. */
  datatype Eu32 =
    | SS(a: u32, b: u32)
    | SC(a: u32, c2: Ou32)
    | CS(c1: Ou32, b: u32)
    | CC(c1: Ou32, c2: Ou32)
  {
    /** The fold: XOR of the two slots. */
    function Value(): u32 {
      match this
      case SS(a, b) => Xor(a, b)
      case SC(a, c2) => Xor(a, c2.Value())
      case CS(c1, b) => Xor(c1.Value(), b)
      case CC(c1, c2) => Xor(c1.Value(), c2.Value())
    }

    function Height(): (h: nat)
      ensures h >= 1
    {
      match this
      case SS(_, _) => 1
      case SC(_, c2) => 1 + c2.Height()
      case CS(c1, _) => 1 + c1.Height()
      case CC(c1, c2) => 1 + if c1.Height() < c2.Height() then c2.Height() else c1.Height()
    }

    /** The first and the second slot, whatever the shape. */
    function First(): (s: Slot)
      ensures s.Leaf? <==> SS? || SC?
    {
      match this
      case SS(a, _) => Leaf(a)
      case SC(a, _) => Leaf(a)
      case CS(c1, _) => Child(c1)
      case CC(c1, _) => Child(c1)
    }

    function Second(): (s: Slot)
      ensures s.Leaf? <==> SS? || CS?
    {
      match this
      case SS(_, b) => Leaf(b)
      case SC(_, c2) => Child(c2)
      case CS(_, b) => Leaf(b)
      case CC(_, c2) => Child(c2)
    }

    /** `$SelfE::new_basic(v)`: one magic draw `d`; the first leaf is
        `d * v` (wrapping) and the second is `v` XOR that. */
    static function NewBasic(v: u32, d: u32): (e: Eu32)
      ensures e.Value() == v && e.SS?
    {
      var m := Mul(d, v);
      XorComm(v, m);
      XorCancel(v, m);
      SS(m, Xor(v, m))
    }

    /** `$SelfE::new_sc(v, c2)`: the leaf is `v ^ c2.value()`. */
    static function NewSc(v: u32, c2: Ou32): (e: Eu32)
      ensures e.Value() == v && e.SC? && e.c2 == c2
    {
      XorCancel(v, c2.Value());
      SC(Xor(v, c2.Value()), c2)
    }

    /** `$SelfE::new_cs(v, c1)`: the leaf is `v ^ c1.value()`. */
    static function NewCs(v: u32, c1: Ou32): (e: Eu32)
      ensures e.Value() == v && e.CS? && e.c1 == c1
    {
      XorComm(v, c1.Value());
      XorCancel(v, c1.Value());
      CS(c1, Xor(v, c1.Value()))
    }

    /** `$SelfE::new_cc(c1, c2)`: the value is fixed by the two children. */
    static function NewCc(c1: Ou32, c2: Ou32): (e: Eu32)
      ensures e.Value() == Xor(c1.Value(), c2.Value()) && e.CC? && e.c1 == c1 && e.c2 == c2
    {
      CC(c1, c2)
    }

    /** The reseed branch of `assign`: the leaf of a mixed node, and the
        first slot of SS and CC, move by `delta`; the other slot moves by
        `tmp`. A child slot moves by being assigned its own value XOR the
        mask. */
    function Reseed(delta: u32, tmp: u32): (e: Eu32)
      ensures e.Value() == Xor(Xor(Value(), delta), tmp)
      ensures e.Height() == Height()
    {
      match this
      case SS(a, b) =>
        XorMix(a, b, delta, tmp);
        SS(Xor(a, delta), Xor(b, tmp))
      case SC(a, c2) =>
        XorComm(tmp, c2.Value());
        XorMix(a, c2.Value(), delta, tmp);
        SC(Xor(a, delta), c2.Assign(Xor(tmp, c2.Value())))
      case CS(c1, b) =>
        XorComm(tmp, c1.Value());
        XorMix(c1.Value(), b, tmp, delta);
        XorSwapLast(Xor(c1.Value(), b), tmp, delta);
        CS(c1.Assign(Xor(tmp, c1.Value())), Xor(b, delta))
      case CC(c1, c2) =>
        XorComm(delta, c1.Value());
        XorComm(tmp, c2.Value());
        XorMix(c1.Value(), c2.Value(), delta, tmp);
        CC(c1.Assign(Xor(delta, c1.Value())), c2.Assign(Xor(tmp, c2.Value())))
    }

    /** An ordinary write to the first slot: XOR a leaf with `delta`, or
        assign a child its value XOR `delta`. */
    function XorFirst(delta: u32): (e: Eu32)
      ensures e.Value() == Xor(Value(), delta)
      ensures e.Height() == Height()
    {
      match this
      case SS(a, b) =>
        XorSwapLast(a, delta, b);
        SS(Xor(a, delta), b)
      case SC(a, c2) =>
        XorSwapLast(a, delta, c2.Value());
        SC(Xor(a, delta), c2)
      case CS(c1, b) =>
        XorComm(delta, c1.Value());
        XorSwapLast(c1.Value(), delta, b);
        CS(c1.Assign(Xor(delta, c1.Value())), b)
      case CC(c1, c2) =>
        XorComm(delta, c1.Value());
        XorSwapLast(c1.Value(), delta, c2.Value());
        CC(c1.Assign(Xor(delta, c1.Value())), c2)
    }

    /** An ordinary write to the second slot. */
    function XorSecond(delta: u32): (e: Eu32)
      ensures e.Value() == Xor(Value(), delta)
      ensures e.Height() == Height()
    {
      match this
      case SS(a, b) =>
        XorAssoc(a, b, delta);
        SS(a, Xor(b, delta))
      case SC(a, c2) =>
        XorComm(delta, c2.Value());
        XorAssoc(a, c2.Value(), delta);
        SC(a, c2.Assign(Xor(delta, c2.Value())))
      case CS(c1, b) =>
        XorAssoc(c1.Value(), b, delta);
        CS(c1, Xor(b, delta))
      case CC(c1, c2) =>
        XorComm(delta, c2.Value());
        XorAssoc(c1.Value(), c2.Value(), delta);
        CC(c1, c2.Assign(Xor(delta, c2.Value())))
    }
  }
}
