# obfuscate-integer, modelled in Dafny

The crate `obfuscate-integer` stores an integer in a form that makes it
hard for a memory scanner to find or change. The stored value never sits in
memory as such. A container (`Ou32`) holds a `status` word and a box holding a
two-slot share tree (`Eu32`). Each slot holds either a raw leaf word or
another container, in four shapes: `SS`, `SC`, `CS` and `CC`. The
integer is the XOR fold of the tree (`value()`). Every write (`assign`)
moves the status by the constant `MAGIC`. It also XORs the slots its
phase selects with the mask that makes the fold the new value; when that
mask is 0, as in an ordinary write of the value already stored, those
leaves stay as they were. Which slots a write touches is chosen by the
status:

- Phase 0 (`status & 31 == 0`) is a reseed write. It derives
  `tmp = 3511 + old * MAGIC`, adds `tmp & !31` to the status and changes
  both slots.
- Any other phase is an ordinary write. It changes the first slot when bit
  5 of the status is clear, the second slot otherwise.

The constructors split a value into shares using a weak process-wide
pseudo-random counter, `magic()`.

The crate instantiates the same code for twelve integer widths. This model
fixes one of them, `u32`. At that width `MAGIC` is `0x787853`, because
the `<< 60` half of its definition is truncated away. Its low five bits are
19, so every write moves the phase `status & 31` by 19, an odd step.

Modules:

- `Word` (word.dfy): 32-bit words as the integers `0 .. 2^32-1`.
  - The wrapping operators, bitwise `^ & |`, the shifts and the phase/bit-5
    masks.
  - The modular arithmetic of the phase walk.
  - The XOR algebra.
- `Tree` (tree.dfy): the container as a value.
  - The fold, the constructors and `from_raw`/`into_raw`.
  - The write protocol as a function `Ou32.Assign`.
  - The compound operators and the comparisons.
  - Every `magic()` draw a constructor makes is a parameter, taken in the
    crate's evaluation order.
- `Heap` (heap.dfy): the container as the crate keeps it.
  - A class whose `status` and `val` fields a write updates in place, with
    exclusively owned child objects (the `Box`).
  - `Assign` mutates the object graph. It is proved to leave exactly the
    tree `Tree.Ou32.Assign` computes.
- `Magic` (magic.dfy): the `magic()` counter as an object.
  - The stack address `_magic()` reads is a parameter.
  - The recurrence's unique fixed point is found and shown repaired.
- `Fold` (fold.dfy): an independent reading of `value()` as the XOR of
  all leaf words.
- `Protocol` (protocol.dfy): what a write promises beyond "the value is
  what was written".
  - Which slots it touches.
  - That the layout it leaves does not depend on the value written.
  - That exactly one of any 32 consecutive writes reseeds.
  - When a write of the unchanged value leaves the leaves untouched.
  - The crate's own examples.

## Model

| member | source | states |
|---|---|---|
| Word.Add | src/lib.rs:79 | `+` wraps: the result is the exact sum or the sum less 2^32 |
| Word.Sub | src/lib.rs:79 | `-` wraps: the result is the exact difference or the difference plus 2^32 |
| Word.Mul | src/lib.rs:331 | `*` wraps: exact whenever the product fits in 32 bits, and the product of two odd words stays odd |
| Word.Xor | src/lib.rs:338 | `a ^ b` is 0 exactly when `a == b` |
| Word.And | src/lib.rs:336 | `a & b` is no larger than either operand |
| Word.Or | src/lib.rs:337 | bitwise or is no smaller than either operand |
| Word.Shl | src/lib.rs:334 | `<<` by any amount (taken modulo 32, overflow checks off) is the exact product by 2^(b mod 32) whenever that fits in 32 bits |
| Word.Shr | src/lib.rs:335 | `>>` by any amount (taken modulo 32, overflow checks off) never exceeds the shifted word |
| Word.Phase | src/lib.rs:201 | `status & 31` is a phase in 0..31 |
| Word.Bit5 | src/lib.rs:212 | `status & 32 != 0` exactly when the status lies in the upper half of its 64-block (`status mod 64 >= 32`) |
| Word.ClearLow5 | src/lib.rs:203 | `tmp & !31` is a multiple of 32 that lies within 31 below `tmp` |
| Word.PhaseOfAdvance | src/lib.rs:203-224 | after adding `tmp & !31` (reseed) and then MAGIC, or MAGIC alone, the phase `status & 31` has moved by exactly 19 modulo 32, carries out of bit 31 notwithstanding |
| Word.PhaseHits | src/lib.rs:162 | from any phase, some step of 19 within any 32 consecutive steps lands on phase 0 |
| Word.PhaseHitsOnce | src/lib.rs:162 | two steps less than 32 apart that both land on phase 0 are the same step |
| Word.PhaseReturns | src/lib.rs:162 | `n` steps of 19 return to the starting phase exactly when 32 divides `n` |
| Word.OddFactor | src/lib.rs:137 | an odd factor cannot contribute to divisibility by 2^k, which is the argument behind the counter's fixed point and the reseed quantity's zero |
| Tree.Ou32.Value | src/lib.rs:197-199 | `value()` folds the share tree and never reads the status; its independent reading is Fold.ValueIsXorOfLeaves |
| Tree.Eu32.Value | src/lib.rs:152-159 | the four cases of the fold: `a^b`, `a^value(c)`, `value(c)^b`, `value(c1)^value(c2)`; related to the leaves by Fold.ValueIsXorOfLeaves |
| Tree.Ou32.NewBasic | src/lib.rs:164-167 | the basic container holds `v` in two leaves, and its status is the first draw, whatever `v` is |
| Tree.Eu32.NewBasic | src/lib.rs:144 | the leaf pair `(d*v, v^(d*v))` folds to `v` |
| Tree.Eu32.NewSc | src/lib.rs:146 | the leaf `v ^ c2.value()` beside child `c2` folds to `v`, and keeps `c2` |
| Tree.Eu32.NewCs | src/lib.rs:148 | the leaf `v ^ c1.value()` beside child `c1` folds to `v`, and keeps `c1` |
| Tree.Ou32.NewCs | src/lib.rs:169-172 | the result holds `v`, wraps the given container as its first slot, and takes `d0 ^ MAGIC ^ v` as status |
| Tree.Ou32.NewSc | src/lib.rs:174-177 | as NewCs, with the given container as second slot |
| Tree.Ou32.New | src/lib.rs:179-182 | for any five draws the result holds `v`; it is `new_cc` (a bare CC node) over two basic children, the second holding `d0 ^ MAGIC` |
| Tree.Ou32.NewCssc | src/lib.rs:184-187 | for any seven draws the result holds `v`; it is the three-level CC(CS(basic,leaf), SC(leaf,basic)) |
| Tree.Ou32.FromRaw | src/lib.rs:189-191 | the container built from `(status, val)` holds exactly `val`'s fold and that status |
| Tree.Ou32.IntoRaw | src/lib.rs:193-195 | the raw pair gives back the status and a tree with the container's value |
| Tree.Ou32.Assign | src/lib.rs:200-225 | after `assign(v)`, `value() == v` for every shape, phase and nesting depth; the tree keeps its height; the phase moves by 19 |
| Tree.Eu32.Reseed | src/lib.rs:204-209 | the reseed slot updates move the fold by `delta ^ tmp` and keep the height |
| Tree.Eu32.XorFirst | src/lib.rs:211-216 | an ordinary first-slot update moves the fold by `delta` and keeps the height |
| Tree.Eu32.XorSecond | src/lib.rs:217-222 | an ordinary second-slot update moves the fold by `delta` and keeps the height |
| Tree.ReseedUnmasks | src/lib.rs:202-208 | the two reseed masks `delta = v ^ old ^ tmp` and `tmp` cancel to leave `v` |
| Tree.ReseedTmp | src/lib.rs:202 | the reseed quantity `3511 + old * MAGIC`, wrapping; Protocol.ReseedTmpZero says when it is 0 |
| Tree.Ou32.Eq | src/lib.rs:340 | `==` between containers compares `value()`; see Protocol.EqIgnoresLayout and Protocol.AssignAgreesWithComparisons |
| Tree.Ou32.Lt | src/lib.rs:352 | `<` between containers compares `value()`; see Protocol.AssignAgreesWithComparisons |
| Tree.Ou32.EqRaw | src/lib.rs:345 | `==` against a raw integer compares `value()` with it |
| Tree.Ou32.LtRaw | src/lib.rs:359 | `<` against a raw integer compares `value()` with it |
| Tree.Apply | src/lib.rs:329-338 | the ten lifted operators on u32; exactly division and remainder by zero have no result (Rust panics) |
| Tree.Ou32.OpAssign | src/lib.rs:257-263 | `x op= rhs` panics exactly on division or remainder by zero, and otherwise leaves `value() == value() op rhs` at the same height |
| Tree.Writes | src/lib.rs:200-225 | after a run of writes the container holds the last value written, has its old height, and its phase has moved by 19 per write |
| Fold.ValueIsXorOfLeaves | src/lib.rs:152-159 | `value()` is the XOR of all leaf words of the tree, left to right; no status word takes part |
| Fold.XorAllConcat | src/lib.rs:152-159 | the XOR of a concatenation of leaf sequences is the XOR of the parts |
| Protocol.OrdinaryWriteFirst | src/lib.rs:211-224 | in a non-zero phase with bit 5 clear, a write moves the first slot by `v ^ old` (a child is assigned its value XOR that), leaves the second slot and the shape as they were, and adds MAGIC to the status |
| Protocol.OrdinaryWriteSecond | src/lib.rs:217-224 | the same with bit 5 set, for the second slot |
| Protocol.ReseedWrite | src/lib.rs:201-224 | in phase 0 a write adds `tmp & !31` and MAGIC to the status, keeps the shape, and moves the leaf of a mixed node and the first slot of SS/CC by `delta`, the other slot by `tmp` |
| Protocol.LayoutIndependentOfValue | src/lib.rs:200-225 | the layout a write leaves (shape and every status word at every depth) is the same whatever value is written |
| Protocol.ReseedLayout | src/lib.rs:201-209 | the reseed case of LayoutIndependentOfValue |
| Protocol.OrdinaryLayout | src/lib.rs:210-223 | the ordinary case of LayoutIndependentOfValue |
| Protocol.SameLayoutRefl | src/lib.rs:120-123 | every container has its own layout |
| Protocol.ReseedsAtPhase | src/lib.rs:201-224 | write `j` of a run reseeds exactly when `j` steps of 19 bring the starting phase to 0 |
| Protocol.OneReseedPer32 | src/lib.rs:162-224 | among any 32 consecutive writes exactly one takes the reseed branch, whatever the container and the values written |
| Protocol.ReseedsOnce | src/lib.rs:201-224 | two reseeding writes less than 32 apart are the same write |
| Protocol.ReseedTmpZero | src/lib.rs:202 | `3511 + old * MAGIC` is 0 for exactly one stored value, `0x1F95E773` |
| Protocol.NoOpWriteLeaves | src/lib.rs:200-225 | writing the value already stored into a leaf-only node: outside phase 0 no leaf changes; in phase 0 the leaves stay exactly when the stored value is `0x1F95E773`; the status always changes |
| Protocol.XorTwiceRestores | src/lib.rs:257-263 | `^= k` twice gives back the old value |
| Protocol.SubThenAddRestores | src/lib.rs:257-263 | `-= k` then `+= k` gives back the old value, wrapping included |
| Protocol.FromRawExample | src/lib.rs:396 | `from_raw((1, SS(1,2)))` holds 3, and adding `new(4).value()` gives 7, for any draws |
| Protocol.SubWrapsExample | src/lib.rs:397 | `0 - new(4).value()` wraps to a positive word, for any draws |
| Protocol.EqIgnoresLayout | src/lib.rs:339-342 | one instance: `from_raw((1, SS(1,2)))` and `from_raw((0, SS(3,0)))` are different containers, yet `==` holds between them |
| Protocol.AssignAgreesWithComparisons | src/lib.rs:339-372 | `==` and `<` between containers, and against raw integers, compare the written values |
| Magic.Recurrence | src/lib.rs:137 | the step `d*(d+1)*6+1`, wrapping, always yields an odd word (`d*(d+1)` is even) |
| Magic.NextState | src/lib.rs:136-140 | the counter never stays put unless the address equals it; it leaves the recurrence only at a fixed point, and then takes the address |
| Magic.FixedPoint | src/lib.rs:137-138 | `d*(d+1)*6+1 == d` modulo 2^32 exactly for `d = 0x55555555` (where `3d+1` wraps to 0) |
| Magic.FixedPointRepair | src/lib.rs:131-142 | the initial counter is not the fixed point, and a draw at the fixed point hands the counter to the address |
| Magic.DrawsSplit | src/lib.rs:131-142 | `m + n` draws are `m` draws followed by `n` more from where the first left the counter |
| Magic.MagicSource.constructor | src/lib.rs:95 | the counter starts at `0x787853` |
| Magic.MagicSource.Draw | src/lib.rs:131-142 | `magic()` returns the counter and advances it by the recurrence, or to the address at a fixed point |
| Magic.MagicSource.DrawMany | src/lib.rs:131-142 | `n` successive draws return `Draws` of the old counter and leave it at `After` |
| Heap.Ou32.Value | src/lib.rs:197-199 | the fold read off the object graph equals the fold of the tree it stands for |
| Heap.Ou32.NewBasic | src/lib.rs:164-167 | the new object is valid, owns only itself, and stands for `Tree.Ou32.NewBasic` |
| Heap.Ou32.NewCs | src/lib.rs:169-172 | takes ownership of the given container and stands for `Tree.Ou32.NewCs` |
| Heap.Ou32.NewSc | src/lib.rs:174-177 | takes ownership of the given container and stands for `Tree.Ou32.NewSc` |
| Heap.Ou32.New | src/lib.rs:179-182 | a fresh valid object graph standing for `Tree.Ou32.New` |
| Heap.Ou32.NewCssc | src/lib.rs:184-187 | a fresh valid object graph standing for `Tree.Ou32.NewCssc` |
| Heap.Ou32.NewFrom | src/lib.rs:179-182 | `new(v)` with its five draws taken from the counter: the result stands for `Tree.Ou32.New` over those draws, and the counter has moved five steps |
| Heap.Ou32.NewCsscFrom | src/lib.rs:184-187 | the same for `new_cssc(v)` and seven draws |
| Heap.Ou32.Assign | src/lib.rs:200-225 | the in-place write keeps the ownership invariant and footprint, and leaves exactly the tree `Tree.Ou32.Assign` computes, so `value() == v` |
| Heap.Ou32.OpAssign | src/lib.rs:257-263 | the in-place compound assignment either panics (division/remainder by zero, nothing written) or leaves the tree `Tree.Ou32.OpAssign` computes |
| Heap.Ou32.AddToStatus | src/lib.rs:203-224 | `self.status += k` wraps and changes nothing else |
| Heap.Ou32.Reseed | src/lib.rs:205-209 | the in-place reseed slot updates leave the tree `Tree.Eu32.Reseed` computes and keep the status |
| Heap.Ou32.XorFirst | src/lib.rs:213-216 | the in-place first-slot update leaves the tree `Tree.Eu32.XorFirst` computes |
| Heap.Ou32.XorSecond | src/lib.rs:218-221 | the in-place second-slot update leaves the tree `Tree.Eu32.XorSecond` computes |

## Left out

- Only the `u32` instantiation is modelled. The other eleven widths run the same code. Signed widths would also differ in how `<` orders values and in how `>>` fills the top bit.
- Heap.Ou32.NewFrom, Heap.Ou32.NewCsscFrom: every draw of one call reads the same stack address `addr`. In the crate each `_magic()` call reads its own frame's address, a value no part of the program determines.
- Heap.Ou32.NewFrom, Heap.Ou32.NewCsscFrom: the crate draws during construction, interleaved with allocation. The model takes all draws first and then allocates. The draws and their order are the same.
- The `forbid-unsafe` build, where `magic()` is the stack address alone (src/lib.rs:126-127), is not modelled. A constructor in that build is a constructor here with every draw an address.
- The counter is a global `static mut`, shared without synchronisation between threads. Here it is one `MagicSource` object passed to the constructors. Concurrent draws are not modelled.
- `src/custom_ai.rs` (the `cai!` macro and the `CustomAssign`/`CustomInitialize` impls) and the specialisation-based `Into` conversions (src/lib.rs:233-256) are not part of this model. A caller converts before calling `Assign` or a constructor.
- The operators whose right-hand side is another container, or a reference to one (src/lib.rs:270-281, 287), use that container's value. Tree.Ou32.OpAssign takes that value directly. Operators whose result is a bare integer (src/lib.rs:282-326) are `Tree.Apply` on the value.
- `Display`, `Debug`, `Clone`, the demo `main` and the `cai!` part of the test (src/lib.rs:227-232, 398-433) are not modelled. They have no behaviour beyond formatting, copying or the macro.
- `from_raw`/`into_raw` are modelled on values only (Tree.Ou32.FromRaw/IntoRaw). The object model has no counterpart, because moving a box in or out involves no write to the tree.
- Memory layout, `Box` allocation and the scanner threat model cannot be stated in Dafny. Only the field-level churn of a write is stated: Protocol.NoOpWriteLeaves and Protocol.LayoutIndependentOfValue.
- `ne`, `le`, `gt`, `ge`, `partial_cmp` and `cmp` (src/lib.rs:341-372) are not modelled separately. Each compares `value()` in the same way as `Tree.Ou32.Eq`/`Lt`.

## Notes on the code

- `new_basic` takes two draws. The first becomes the status, computed as `(d0 ^ v) ^ v` (src/lib.rs:165-166). The second splits `v` into the leaves `(d*v, v ^ (d*v))` (src/lib.rs:144).
- A reseed write adds `tmp & !31` to the status before MAGIC (src/lib.rs:203).
- A reseed write assigns a child `tmp ^ child.value()`, so the child's value is XORed with `tmp` (src/lib.rs:207-208).
- The slot of an ordinary write is picked by bit 5 of the status, `status & 32` (src/lib.rs:212).
