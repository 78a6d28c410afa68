/** What the write protocol promises beyond "the value is what was
    written": which slots a write touches, how the status walks through the
    32 phases, that the layout a write leaves does not depend on the value
    written, and the behaviour of the value-based operators. */
module Protocol {
  import opened Word
  import opened Tree

  /** Same shape: the same kind (leaf or child) in each slot. */
  predicate SameShape(e: Eu32, f: Eu32) {
    e.First().Leaf? == f.First().Leaf? && e.Second().Leaf? == f.Second().Leaf?
  }

  /** An ordinary write with bit 5 clear moves only the first slot, by
      `delta = v ^ old`; a child there is assigned its own value XOR
      delta. The status advances by MAGIC alone. */
  lemma OrdinaryWriteFirst(x: Ou32, v: u32)
    requires Phase(x.status) != 0 && !Bit5(x.status)
    ensures var r := x.Assign(v);
      var delta := Xor(v, x.Value());
      && r.status == Add(x.status, MAGIC)
      && SameShape(r.val, x.val)
      && r.val.Second() == x.val.Second()
      && r.val.First().Value() == Xor(x.val.First().Value(), delta)
      && (x.val.First().Child? ==>
            r.val.First().c == x.val.First().c.Assign(Xor(delta, x.val.First().c.Value())))
  {
    var delta := Xor(v, x.Value());
    match x.val
    case SS(a, b) =>
    case SC(a, c2) =>
    case CS(c1, b) =>
      XorComm(delta, c1.Value());
    case CC(c1, c2) =>
      XorComm(delta, c1.Value());
  }

  /** An ordinary write with bit 5 set moves only the second slot. */
  lemma OrdinaryWriteSecond(x: Ou32, v: u32)
    requires Phase(x.status) != 0 && Bit5(x.status)
    ensures var r := x.Assign(v);
      var delta := Xor(v, x.Value());
      && r.status == Add(x.status, MAGIC)
      && SameShape(r.val, x.val)
      && r.val.First() == x.val.First()
      && r.val.Second().Value() == Xor(x.val.Second().Value(), delta)
      && (x.val.Second().Child? ==>
            r.val.Second().c == x.val.Second().c.Assign(Xor(delta, x.val.Second().c.Value())))
  {
    var delta := Xor(v, x.Value());
    match x.val
    case SS(a, b) =>
    case SC(a, c2) =>
      XorComm(delta, c2.Value());
    case CS(c1, b) =>
    case CC(c1, c2) =>
      XorComm(delta, c2.Value());
  }

  /** A reseed write (phase 0) moves both slots. With `tmp = 3511 + old *
      MAGIC` and `delta = v ^ old ^ tmp`, the leaf of a mixed node and the
      first slot of SS and CC move by delta, the other slot by tmp. The
      status gains `tmp & !31` and then MAGIC. */
  lemma ReseedWrite(x: Ou32, v: u32)
    requires Phase(x.status) == 0
    ensures var r := x.Assign(v);
      var tmp := ReseedTmp(x.Value());
      var delta := Xor(v, Xor(x.Value(), tmp));
      && r.status == Add(Add(x.status, ClearLow5(tmp)), MAGIC)
      && SameShape(r.val, x.val)
      && r.val.First().Value() == Xor(x.val.First().Value(), if x.val.CS? then tmp else delta)
      && r.val.Second().Value() == Xor(x.val.Second().Value(), if x.val.CS? then delta else tmp)
  {
    var tmp := ReseedTmp(x.Value());
    var delta := Xor(v, Xor(x.Value(), tmp));
    match x.val
    case SS(a, b) =>
    case SC(a, c2) =>
      XorComm(tmp, c2.Value());
    case CS(c1, b) =>
      XorComm(tmp, c1.Value());
    case CC(c1, c2) =>
      XorComm(delta, c1.Value());
      XorComm(tmp, c2.Value());
  }

  /** Which slots a write touches, how the status moves and where every
      nested status ends up depend on the container alone, never on the
      value written: writing `v` or `w` leaves the same layout. */
  lemma {:induction false} LayoutIndependentOfValue(x: Ou32, v: u32, w: u32)
    ensures SameLayout(x.Assign(v), x.Assign(w))
    decreases x, 1
  {
    if Phase(x.status) == 0 {
      ReseedLayout(x, v, w);
    } else {
      OrdinaryLayout(x, v, w);
    }
  }

  lemma {:induction false} ReseedLayout(x: Ou32, v: u32, w: u32)
    requires Phase(x.status) == 0
    ensures SameLayout(x.Assign(v), x.Assign(w))
    decreases x, 0
  {
    var cur := x.Value();
    var tmp := ReseedTmp(cur);
    var dv, dw := Xor(v, Xor(cur, tmp)), Xor(w, Xor(cur, tmp));
    var rv, rw := x.Assign(v), x.Assign(w);
    assert rv.val == x.val.Reseed(dv, tmp) && rw.val == x.val.Reseed(dw, tmp);
    assert rv.status == rw.status;
    match x.val
    case SS(a, b) =>
    case SC(a, c2) =>
      var t := Xor(tmp, c2.Value());
      assert rv.val == SC(Xor(a, dv), c2.Assign(t)) && rw.val == SC(Xor(a, dw), c2.Assign(t));
      LayoutIndependentOfValue(c2, t, t);
    case CS(c1, b) =>
      var t := Xor(tmp, c1.Value());
      assert rv.val == CS(c1.Assign(t), Xor(b, dv)) && rw.val == CS(c1.Assign(t), Xor(b, dw));
      LayoutIndependentOfValue(c1, t, t);
    case CC(c1, c2) =>
      var t := Xor(tmp, c2.Value());
      var sv, sw := Xor(dv, c1.Value()), Xor(dw, c1.Value());
      assert rv.val == CC(c1.Assign(sv), c2.Assign(t)) && rw.val == CC(c1.Assign(sw), c2.Assign(t));
      LayoutIndependentOfValue(c1, sv, sw);
      LayoutIndependentOfValue(c2, t, t);
  }

  lemma {:induction false} OrdinaryLayout(x: Ou32, v: u32, w: u32)
    requires Phase(x.status) != 0
    ensures SameLayout(x.Assign(v), x.Assign(w))
    decreases x, 0
  {
    var cur := x.Value();
    var dv, dw := Xor(v, cur), Xor(w, cur);
    var rv, rw := x.Assign(v), x.Assign(w);
    assert rv.status == rw.status;
    if Bit5(x.status) {
      assert rv.val == x.val.XorSecond(dv) && rw.val == x.val.XorSecond(dw);
      match x.val
      case SS(a, b) =>
      case SC(a, c2) =>
        var sv, sw := Xor(dv, c2.Value()), Xor(dw, c2.Value());
        assert rv.val == SC(a, c2.Assign(sv)) && rw.val == SC(a, c2.Assign(sw));
        LayoutIndependentOfValue(c2, sv, sw);
      case CS(c1, b) =>
        SameLayoutRefl(c1);
      case CC(c1, c2) =>
        var sv, sw := Xor(dv, c2.Value()), Xor(dw, c2.Value());
        assert rv.val == CC(c1, c2.Assign(sv)) && rw.val == CC(c1, c2.Assign(sw));
        LayoutIndependentOfValue(c2, sv, sw);
        SameLayoutRefl(c1);
    } else {
      assert rv.val == x.val.XorFirst(dv) && rw.val == x.val.XorFirst(dw);
      match x.val
      case SS(a, b) =>
      case SC(a, c2) =>
        SameLayoutRefl(c2);
      case CS(c1, b) =>
        var sv, sw := Xor(dv, c1.Value()), Xor(dw, c1.Value());
        assert rv.val == CS(c1.Assign(sv), b) && rw.val == CS(c1.Assign(sw), b);
        LayoutIndependentOfValue(c1, sv, sw);
      case CC(c1, c2) =>
        var sv, sw := Xor(dv, c1.Value()), Xor(dw, c1.Value());
        assert rv.val == CC(c1.Assign(sv), c2) && rw.val == CC(c1.Assign(sw), c2);
        LayoutIndependentOfValue(c1, sv, sw);
        SameLayoutRefl(c2);
    }
  }

  /** Every container has its own layout. */
  lemma {:induction false} SameLayoutRefl(x: Ou32)
    ensures SameLayout(x, x)
  {
    match x.val
    case SS(_, _) =>
    case SC(_, c) => SameLayoutRefl(c);
    case CS(c, _) => SameLayoutRefl(c);
    case CC(c1, c2) => SameLayoutRefl(c1); SameLayoutRefl(c2);
  }

  /** Write number `j` (counting from 0) of the run `vs` takes the reseed
      branch. */
  predicate ReseedsAt(x: Ou32, vs: seq<u32>, j: nat)
    requires j < |vs|
  {
    Phase(Writes(x, vs[..j]).status) == 0
  }

  /** Write `j` reseeds exactly when `j` steps of 19 bring the starting
      phase to 0. */
  lemma ReseedsAtPhase(x: Ou32, vs: seq<u32>, j: nat)
    requires j < |vs|
    ensures ReseedsAt(x, vs, j) <==> (Phase(x.status) + PHASE_STEP * j) % 32 == 0
  {
    assert |vs[..j]| == j;
  }

  /** Exactly one of any 32 consecutive writes reseeds, whatever the
      container, its status and the values written. */
  lemma OneReseedPer32(x: Ou32, vs: seq<u32>, i: nat)
    requires i + 32 <= |vs|
    ensures exists j :: i <= j < i + 32 && ReseedsAt(x, vs, j)
    ensures forall j, k :: i <= j < i + 32 && i <= k < i + 32 && ReseedsAt(x, vs, j) && ReseedsAt(x, vs, k) ==> j == k
  {
    var j := PhaseHits(Phase(x.status), i);
    ReseedsAtPhase(x, vs, j);
    forall j, k | i <= j < i + 32 && i <= k < i + 32 && ReseedsAt(x, vs, j) && ReseedsAt(x, vs, k)
      ensures j == k
    {
      ReseedsOnce(x, vs, j, k);
    }
  }

  /** Two reseeding writes less than 32 apart are the same write. */
  lemma ReseedsOnce(x: Ou32, vs: seq<u32>, j: nat, k: nat)
    requires j < |vs| && k < |vs| && j - 32 < k < j + 32
    requires ReseedsAt(x, vs, j) && ReseedsAt(x, vs, k)
    ensures j == k
  {
    ReseedsAtPhase(x, vs, j);
    ReseedsAtPhase(x, vs, k);
    PhaseHitsOnce(Phase(x.status), j, k);
  }

  /** The reseed quantity `3511 + old * MAGIC` is 0 for exactly one stored
      value: MAGIC is odd, so multiplying by it is a bijection on words. */
  lemma ReseedTmpZero(cur: u32)
    ensures ReseedTmp(cur) == 0 <==> cur == 0x1F95_E773
  {
    var k := 0x1F95_E773;
    assert (RESEED_BASE + k * MAGIC) % WORD == 0;
    if ReseedTmp(cur) == 0 {
      var q1 := (cur * MAGIC) / WORD;
      var q2 := (RESEED_BASE + (cur * MAGIC) % WORD) / WORD;
      var q3 := (RESEED_BASE + k * MAGIC) / WORD;
      assert RESEED_BASE + cur * MAGIC == WORD * (q1 + q2);
      assert MAGIC * (cur - k) == WORD * (q1 + q2 - q3);
      MultipleMod(WORD, q1 + q2 - q3);
      Pow2Is32();
      OddFactor(MAGIC, cur - k, 32);
    }
  }

  /** A write of the value already stored changes no leaf word unless it
      reseeds; a reseeding one into a leaf-only node XORs both leaves with
      the reseed quantity, so it too leaves them as they were exactly when
      the stored value is the one word whose reseed quantity is 0. The
      status moves on every write. */
  lemma NoOpWriteLeaves(x: Ou32)
    requires x.val.SS?
    ensures Phase(x.status) != 0 ==> x.Assign(x.Value()).val == x.val
    ensures Phase(x.status) == 0 ==> (x.Assign(x.Value()).val == x.val <==> x.Value() == 0x1F95_E773)
    ensures x.Assign(x.Value()).status != x.status
  {
    var cur := x.Value();
    var tmp := ReseedTmp(cur);
    XorSelf(cur);
    XorZero(x.val.a);
    XorZero(x.val.b);
    if Phase(x.status) == 0 {
      XorCancel(tmp, cur);
      XorComm(tmp, cur);
      ReseedTmpZero(cur);
      XorCancel(tmp, x.val.a);
      XorSelf(x.val.a);
      XorZero(tmp);
      assert Xor(x.val.a, tmp) == x.val.a ==> tmp == 0 by {
        XorCancel(tmp, x.val.a);
        XorComm(x.val.a, Xor(x.val.a, tmp));
      }
    }
    PhaseOfAdvance(x.status, tmp);
  }

  /** Subtracting and then adding the same amount gives the old value
      back, through two compound assignments. */
  lemma SubThenAddRestores(x: Ou32, k: u32)
    ensures var s := x.OpAssign(SubOp, k);
      s.Some? && s.value.OpAssign(AddOp, k).Some? &&
      s.value.OpAssign(AddOp, k).value.Value() == x.Value()
  {
  }

  /** `^=` with the same operand twice gives the old value back. */
  lemma XorTwiceRestores(x: Ou32, k: u32)
    ensures var s := x.OpAssign(XorOp, k);
      s.Some? && s.value.OpAssign(XorOp, k).Some? &&
      s.value.OpAssign(XorOp, k).value.Value() == x.Value()
  {
    XorCancel(x.Value(), k);
  }

  /** `1 ^ 2 == 3`. */
  lemma XorOneTwo()
    ensures Xor(1, 2) == 3
  {
    XorBitsSelf(0, 30);
    assert XorBits(0, 1, 31) == 1;
    Pow2Is32();
  }

  /** The crate's own example: `from_raw((1, SS(1, 2)))` holds 3, and
      adding the value of a freshly built container holding 4 gives 7,
      whatever the magic draws were. */
  lemma FromRawExample(d0: u32, d1: u32, d2: u32, d3: u32, d4: u32)
    ensures Ou32.FromRaw((1, SS(1, 2))).Value() == 3
    ensures Add(Ou32.FromRaw((1, SS(1, 2))).Value(), Ou32.New(4, d0, d1, d2, d3, d4).Value()) == 7
  {
    XorOneTwo();
  }

  /** The crate's second example: `0 - new(4).value()` wraps around and
      so is positive, whatever the magic draws were. */
  lemma SubWrapsExample(d0: u32, d1: u32, d2: u32, d3: u32, d4: u32)
    ensures Sub(0, Ou32.New(4, d0, d1, d2, d3, d4).Value()) == WORD - 4 > 0
  {
  }

  /** `==` compares values, not layouts: two containers with different
      status words and different leaves are equal. */
  lemma EqIgnoresLayout()
    ensures Ou32.FromRaw((1, SS(1, 2))) != Ou32.FromRaw((0, SS(3, 0)))
    ensures Ou32.FromRaw((1, SS(1, 2))).Eq(Ou32.FromRaw((0, SS(3, 0))))
  {
    XorOneTwo();
    XorZero(3);
  }

  /** Writing the same value into any two containers makes them equal, and
      equal to the raw value; `<` and `==` agree with the written values. */
  lemma AssignAgreesWithComparisons(x: Ou32, y: Ou32, v: u32, w: u32)
    ensures x.Assign(v).Eq(y.Assign(v)) && x.Assign(v).EqRaw(v)
    ensures x.Assign(v).Lt(y.Assign(w)) <==> v < w
    ensures x.Assign(v).LtRaw(w) <==> v < w
  {
  }
}
