/** An independent reading of `value()`: flatten the share tree to the
    sequence of its leaf words, left to right, and XOR them all. The
    recursive fold of the crate agrees with it on every tree, so the stored
    integer is the XOR of every leaf word and of nothing else (no status
    word takes part). */
module Fold {
  import opened Word
  import opened Tree

  /** The XOR of a sequence of words; 0 for the empty sequence. */
  function XorAll(s: seq<u32>): u32 {
    if |s| == 0 then 0 else Xor(XorAll(s[..|s| - 1]), s[|s| - 1])
  }

  /** The leaf words of a container, left to right. Every node contributes
      its leaves and its children's leaves, so there are at least two. */
  function Leaves(x: Ou32): (s: seq<u32>)
    ensures |s| >= 2
    decreases x
  {
    match x.val
    case SS(a, b) => [a, b]
    case SC(a, c) => [a] + Leaves(c)
    case CS(c, b) => Leaves(c) + [b]
    case CC(c1, c2) => Leaves(c1) + Leaves(c2)
  }

  /** XOR over a concatenation is the XOR of the two parts. */
  lemma {:induction false} XorAllConcat(s: seq<u32>, t: seq<u32>)
    ensures XorAll(s + t) == Xor(XorAll(s), XorAll(t))
    decreases |t|
  {
    if |t| == 0 {
      assert s + t == s;
      XorZero(XorAll(s));
    } else {
      var t' := t[..|t| - 1];
      assert (s + t)[..|s + t| - 1] == s + t';
      XorAllConcat(s, t');
      XorAssoc(XorAll(s), XorAll(t'), t[|t| - 1]);
    }
  }

  lemma XorAllPair(a: u32, b: u32)
    ensures XorAll([a, b]) == Xor(a, b)
  {
    assert [a, b][..1] == [a];
    assert [a][..0] == [];
    XorZero(a);
    assert XorAll([a]) == Xor(XorAll([]), a) == a;
  }

  /** The crate's fold `value()` is the XOR of all leaf words. */
  lemma {:induction false} ValueIsXorOfLeaves(x: Ou32)
    ensures x.Value() == XorAll(Leaves(x))
    decreases x
  {
    match x.val
    case SS(a, b) =>
      XorAllPair(a, b);
    case SC(a, c) =>
      ValueIsXorOfLeaves(c);
      XorAllConcat([a], Leaves(c));
      assert [a][..0] == [];
      XorZero(a);
    case CS(c, b) =>
      ValueIsXorOfLeaves(c);
      XorAllConcat(Leaves(c), [b]);
      assert [b][..0] == [];
      XorZero(b);
    case CC(c1, c2) =>
      ValueIsXorOfLeaves(c1);
      ValueIsXorOfLeaves(c2);
      XorAllConcat(Leaves(c1), Leaves(c2));
  }
}
