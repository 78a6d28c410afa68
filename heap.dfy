/** The container as the crate keeps it in memory: every node is an object
    whose `status` and `val` fields a write updates in place, and every
    child is owned by exactly one parent (the crate's `Box`). `Model()`
    reads the object graph back as a `Tree.Ou32` value, and each operation
    is proved to do to the model what the corresponding function of module
    Tree does to a value. */
module Heap {
  import opened Word
  import Tree
  import opened Magic

  /** `Eu32`: the two slots of a node; a child slot holds a reference to
      the owned child. */
  datatype Eu32 =
    | SS(a: u32, b: u32)
    | SC(a: u32, c2: Ou32)
    | CS(c1: Ou32, b: u32)
    | CC(c1: Ou32, c2: Ou32)

  class Ou32 {
    var status: u32
    var val: Eu32
    /** This node and every node it owns, directly or through children. */
    ghost var Repr: set<object>

    /** The ownership invariant: each child lies inside this node's
        footprint, does not own this node, is itself valid, and two
        children of one node share no object. */
    ghost predicate Valid()
      reads this, Repr
      decreases Repr
    {
      this in Repr &&
      match val
      case SS(_, _) => true
      case SC(_, c2) => c2 in Repr && c2.Repr <= Repr && this !in c2.Repr && c2.Valid()
      case CS(c1, _) => c1 in Repr && c1.Repr <= Repr && this !in c1.Repr && c1.Valid()
      case CC(c1, c2) =>
        && c1 in Repr && c1.Repr <= Repr && this !in c1.Repr && c1.Valid()
        && c2 in Repr && c2.Repr <= Repr && this !in c2.Repr && c2.Valid()
        && c1.Repr !! c2.Repr
    }

    /** The value this object graph stands for. */
    ghost function Model(): Tree.Ou32
      reads this, Repr
      requires Valid()
      decreases Repr
    {
      Tree.Ou32(status,
        match val
        case SS(a, b) => Tree.SS(a, b)
        case SC(a, c2) => Tree.SC(a, c2.Model())
        case CS(c1, b) => Tree.CS(c1.Model(), b)
        case CC(c1, c2) => Tree.CC(c1.Model(), c2.Model()))
    }

    /** `value()`, read off the object graph. */
    function Value(): (r: u32)
      reads this, Repr
      requires Valid()
      ensures r == Model().Value()
      decreases Repr
    {
      match val
      case SS(a, b) => Xor(a, b)
      case SC(a, c2) => Xor(a, c2.Value())
      case CS(c1, b) => Xor(c1.Value(), b)
      case CC(c1, c2) => Xor(c1.Value(), c2.Value())
    }

    /** `new_basic(v)`: the first draw `d0` becomes the status (the crate
        computes `(d0 ^ v) ^ v`), the second splits `v` into two leaves. */
    constructor NewBasic(v: u32, d0: u32, d1: u32)
      ensures Valid() && Repr == {this}
      ensures Model() == Tree.Ou32.NewBasic(v, d0, d1)
    {
      var m := Xor(d0, v);
      var k := Mul(d1, v);
      status := Xor(m, v);
      val := SS(k, Xor(v, k));
      Repr := {this};
    }

    /** `new_cs(v, c1)`: takes ownership of `c1`; one draw. */
    constructor NewCs(v: u32, c1: Ou32, d0: u32)
      requires c1.Valid()
      ensures Valid() && Repr == {this} + c1.Repr
      ensures Model() == Tree.Ou32.NewCs(v, c1.Model(), d0)
    {
      var m := Xor(d0, MAGIC);
      status := Xor(m, v);
      val := CS(c1, Xor(v, c1.Value()));
      Repr := {this} + c1.Repr;
    }

    /** `new_sc(v, c2)`: takes ownership of `c2`; one draw. */
    constructor NewSc(v: u32, c2: Ou32, d0: u32)
      requires c2.Valid()
      ensures Valid() && Repr == {this} + c2.Repr
      ensures Model() == Tree.Ou32.NewSc(v, c2.Model(), d0)
    {
      var m := Xor(d0, MAGIC);
      status := Xor(m, v);
      val := SC(Xor(v, c2.Value()), c2);
      Repr := {this} + c2.Repr;
    }

    /** `new(v)`: five draws, one here and two for each basic child. */
    constructor New(v: u32, d0: u32, d1: u32, d2: u32, d3: u32, d4: u32)
      ensures Valid() && fresh(Repr)
      ensures Model() == Tree.Ou32.New(v, d0, d1, d2, d3, d4)
    {
      var m := Xor(d0, MAGIC);
      var c1 := new Ou32.NewBasic(Xor(v, m), d1, d2);
      var c2 := new Ou32.NewBasic(m, d3, d4);
      status := Xor(m, v);
      val := CC(c1, c2);
      Repr := {this} + c1.Repr + c2.Repr;
    }

    /** `new_cssc(v)`: seven draws, in the order the crate evaluates
        them. */
    constructor NewCssc(v: u32, d0: u32, d1: u32, d2: u32, d3: u32, d4: u32, d5: u32, d6: u32)
      ensures Valid() && fresh(Repr)
      ensures Model() == Tree.Ou32.NewCssc(v, d0, d1, d2, d3, d4, d5, d6)
    {
      var m := Xor(d0, MAGIC);
      var c1 := NewCsOfBasic(Xor(v, m), Xor(Xor(m, v), MAGIC), d1, d2, d3);
      var c2 := NewScOfBasic(m, Xor(v, MAGIC), d4, d5, d6);
      status := Xor(m, v);
      val := CC(c1, c2);
      Repr := {this} + c1.Repr + c2.Repr;
    }

    /** `new_cs(v, new_basic(x))`, the first child `new_cssc` builds. */
    static method NewCsOfBasic(v: u32, x: u32, d1: u32, d2: u32, d3: u32) returns (c: Ou32)
      ensures c.Valid() && fresh(c.Repr)
      ensures c.Model() == Tree.Ou32.NewCs(v, Tree.Ou32.NewBasic(x, d1, d2), d3)
    {
      var b := new Ou32.NewBasic(x, d1, d2);
      c := new Ou32.NewCs(v, b, d3);
    }

    /** `new_sc(v, new_basic(x))`, the second child `new_cssc` builds. */
    static method NewScOfBasic(v: u32, x: u32, d4: u32, d5: u32, d6: u32) returns (c: Ou32)
      ensures c.Valid() && fresh(c.Repr)
      ensures c.Model() == Tree.Ou32.NewSc(v, Tree.Ou32.NewBasic(x, d4, d5), d6)
    {
      var b := new Ou32.NewBasic(x, d4, d5);
      c := new Ou32.NewSc(v, b, d6);
    }

    /** `Oi::new(v)` with its five draws taken from the counter `src`. */
    static method NewFrom(v: u32, src: MagicSource, addr: u32) returns (r: Ou32)
      modifies src
      ensures r.Valid() && fresh(r.Repr)
      ensures var ds := Draws(old(src.state), addr, 5);
        r.Model() == Tree.Ou32.New(v, ds[0], ds[1], ds[2], ds[3], ds[4])
      ensures src.state == After(old(src.state), addr, 5)
    {
      var ds := src.DrawMany(addr, 5);
      r := new Ou32.New(v, ds[0], ds[1], ds[2], ds[3], ds[4]);
    }

    /** `Oi::new_cssc(v)` with its seven draws taken from the counter
        `src`. */
    static method NewCsscFrom(v: u32, src: MagicSource, addr: u32) returns (r: Ou32)
      modifies src
      ensures r.Valid() && fresh(r.Repr)
      ensures var ds := Draws(old(src.state), addr, 7);
        r.Model() == Tree.Ou32.NewCssc(v, ds[0], ds[1], ds[2], ds[3], ds[4], ds[5], ds[6])
      ensures src.state == After(old(src.state), addr, 7)
    {
      var ds := src.DrawMany(addr, 7);
      r := new Ou32.NewCssc(v, ds[0], ds[1], ds[2], ds[3], ds[4], ds[5], ds[6]);
    }

    /** `assign(v)`, in place and in the crate's order: the reseed branch
        first adds `tmp & !31` to the status, then XORs the leaves and
        assigns the children; MAGIC is added last. Only objects this node
        owns change, and no object joins or leaves it. */
    method Assign(v: u32)
      requires Valid()
      modifies Repr
      ensures Valid() && Repr == old(Repr)
      ensures Model() == old(Model()).Assign(v) && Value() == v
      decreases Repr, 1
    {
      var cur := Value();
      if Phase(status) == 0 {
        var tmp := Tree.ReseedTmp(cur);
        AddToStatus(ClearLow5(tmp));
        Reseed(Xor(v, Xor(cur, tmp)), tmp);
      } else if !Bit5(status) {
        XorFirst(Xor(v, cur));
      } else {
        XorSecond(Xor(v, cur));
      }
      AddToStatus(MAGIC);
    }

    /** A compound assignment `self op= rhs`: `assign(value() op rhs)`.
        When the operator panics (division or remainder by zero) nothing is
        written and `ok` is false. */
    method OpAssign(op: Tree.BinOp, rhs: u32) returns (ok: bool)
      requires Valid()
      modifies Repr
      ensures Valid() && Repr == old(Repr)
      ensures ok <==> old(Model()).OpAssign(op, rhs).Some?
      ensures ok ==> Model() == old(Model()).OpAssign(op, rhs).value
      ensures !ok ==> Model() == old(Model())
    {
      match Tree.Apply(op, Value(), rhs)
      case None =>
        ok := false;
      case Some(n) =>
        Assign(n);
        ok := true;
    }

    /** `self.status += k`, wrapping; nothing else changes. */
    method AddToStatus(k: u32)
      requires Valid()
      modifies this
      ensures Valid() && Repr == old(Repr) && val == old(val)
      ensures Model() == Tree.Ou32(Add(old(status), k), old(Model()).val)
    {
      status := Add(status, k);
    }

    /** The slot updates of a reseed write; the status is left to the
        caller. */
    method Reseed(delta: u32, tmp: u32)
      requires Valid()
      modifies Repr
      ensures Valid() && Repr == old(Repr) && status == old(status)
      ensures Model().val == old(Model()).val.Reseed(delta, tmp)
      decreases Repr, 0
    {
      match val
      case SS(a, b) =>
        val := SS(Xor(a, delta), Xor(b, tmp));
      case SC(a, c2) =>
        val := SC(Xor(a, delta), c2);
        c2.Assign(Xor(tmp, c2.Value()));
      case CS(c1, b) =>
        val := CS(c1, Xor(b, delta));
        c1.Assign(Xor(tmp, c1.Value()));
      case CC(c1, c2) =>
        ghost var m1, m2 := c1.Model(), c2.Model();
        c1.Assign(Xor(delta, c1.Value()));
        assert c2.Valid() && c2.Model() == m2;
        ghost var n1 := c1.Model();
        c2.Assign(Xor(tmp, c2.Value()));
        assert c1.Valid() && c1.Model() == n1 == m1.Assign(Xor(delta, m1.Value()));
    }

    /** The slot update of an ordinary write with bit 5 clear. */
    method XorFirst(delta: u32)
      requires Valid()
      modifies Repr
      ensures Valid() && Repr == old(Repr) && status == old(status)
      ensures Model().val == old(Model()).val.XorFirst(delta)
      decreases Repr, 0
    {
      match val
      case SS(a, b) =>
        val := SS(Xor(a, delta), b);
      case SC(a, c2) =>
        val := SC(Xor(a, delta), c2);
      case CS(c1, _) =>
        c1.Assign(Xor(delta, c1.Value()));
      case CC(c1, _) =>
        c1.Assign(Xor(delta, c1.Value()));
    }

    /** The slot update of an ordinary write with bit 5 set. */
    method XorSecond(delta: u32)
      requires Valid()
      modifies Repr
      ensures Valid() && Repr == old(Repr) && status == old(status)
      ensures Model().val == old(Model()).val.XorSecond(delta)
      decreases Repr, 0
    {
      match val
      case SS(a, b) =>
        val := SS(a, Xor(b, delta));
      case CS(c1, b) =>
        val := CS(c1, Xor(b, delta));
      case SC(_, c2) =>
        c2.Assign(Xor(delta, c2.Value()));
      case CC(_, c2) =>
        c2.Assign(Xor(delta, c2.Value()));
    }
  }
}
