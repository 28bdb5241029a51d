# XorHash: a weak parity checksum and its collision forger

This project models `src/main.rs` of a small Rust demonstration. The file has two parts.

- A deliberately weak 32-slot checksum, `XorHasher`. Each slot holds one byte, 0 or 1: the parity of the odd input bytes whose position is congruent to the slot modulo 32.
- A forging function, `xor_hash_attack`. It pads its input with zero bytes to a block boundary, always at least one byte. It then repeats the padded buffer three times, which gives a longer message with the same digest.

The model has two modules.

- `DigestEngine` (`digest_engine.dfy`) gives the digest two ways. `Fold`/`Absorb` is the byte-by-byte update rule. `Digest`/`OddCount` is the closed form. The lemmas prove the two agree. The hasher is a class `XorHasher` with a fixed 32-byte `array` as its state and a `blockCount` field. Its `Update` loop is proved to follow `Fold` and keeps every slot in {0, 1}. `XorHash` is the one-shot wrapper and returns exactly `Digest(data)`.
- `CollisionForger` (`collision_forger.dfy`) has the padding length, the padded buffer, the `k`-fold repetition and the forged message as functions. `XorHashAttack` builds the message with the source's three-round append loop. The main theorem is `ForgeCollision`: `Digest(Forge(data)) == Digest(data)` for every byte sequence, including the empty one. This is the property the repository's QuickCheck test samples.

Bytes are a `newtype byte` over 0..255, the Rust `u8`. The constants `BLOCK_SIZE` and `HASH_SIZE` are both 32, as in the source.

Three details of the code shape the model.

- Slots are indexed by the position within the current call's `data` (`src/main.rs:35`), so each `update` call starts again at slot 0. `UpdateRestartsAtSlotZero` shows that feeding `[1]` twice differs from feeding `[1, 1]` once.
- `block_count` is overwritten with `(len + 32) / 32` on each call, not summed (`src/main.rs:43`). `XorHasher.Update` states this whatever the counter held before.
- The padding length `32 - len % 32` always lies in 1..=32. So the `if r != 0` test in the attack always passes, and an aligned input gets a whole extra block. `XorHashAttack` keeps the test as written, with its unreachable else side. Had that side been reachable, the padded buffer would have stayed empty.

## Model

| member | source | states |
|---|---|---|
| DigestEngine.Zeros | src/main.rs:14 | n zero bytes, the `[0; HASH_SIZE]` initial state and the `vec![0; r]` padding (src/main.rs:62): length n, every byte 0 |
| DigestEngine.OddCount | src/main.rs:19-29 | the number of odd bytes at positions ≡ j mod 32, never more than the input's length |
| DigestEngine.Digest | src/main.rs:19-29 | the digest has exactly 32 slots, each 0 or 1; the empty input digests to 32 zeros |
| DigestEngine.OddCountShort | src/main.rs:35-40 | a slot at or beyond the input's length receives no byte, so its odd count is 0 |
| DigestEngine.OddCountAppend | src/main.rs:35-40 | after a block-aligned prefix, each appended byte lands in the same slot it would on its own, so the counts add |
| DigestEngine.OddCountZeros | src/main.rs:36-39 | zero bytes are even: appending any number of them leaves every slot's odd count unchanged |
| DigestEngine.Absorb | src/main.rs:36-40 | one step changes only the addressed slot, which becomes the XOR of its parity and the byte's parity; a zero byte leaves a 0/1 slot unchanged |
| DigestEngine.Fold | src/main.rs:35-41 | all bytes of one call absorbed in order, byte i into slot i % 32; its own contract says only that the state keeps 32 slots, and its meaning is stated by FoldClosedForm |
| DigestEngine.FoldKeepsParity | src/main.rs:36-40 | absorbing any bytes into a state of 0/1 slots keeps every slot 0 or 1 |
| DigestEngine.FoldClosedForm | src/main.rs:34-41 | after one update, slot j is (old parity + number of odd bytes at positions ≡ j mod 32) mod 2 if j < len, and unchanged otherwise |
| DigestEngine.FoldFromZeros | src/main.rs:12-17 | from the all-zero initial state the update rule yields exactly the closed-form digest |
| DigestEngine.UpdateRestartsAtSlotZero | src/main.rs:35 | slot indices restart at 0 on each update call: two calls on [1] differ from one call on [1, 1] |
| DigestEngine.XorHasher.constructor | src/main.rs:12-17 | a new hasher has 32 zero slots and a block count of 0 |
| DigestEngine.XorHasher.Update | src/main.rs:34-44 | the new state is the old state with every byte absorbed in order; slots stay 0/1; slots at or beyond len are unchanged; block count becomes (len + 32) / 32, overwritten |
| DigestEngine.XorHasher.Finalize | src/main.rs:46-48 | returns the 32 state slots, each 0 or 1 |
| DigestEngine.XorHash | src/main.rs:51-55 | new, update, finalize returns the closed-form digest of the input |
| CollisionForger.Padding | src/main.rs:59 | the padding length lies in 1..=32 and makes the length a multiple of 32; it is a whole block exactly when the input is already aligned |
| CollisionForger.Padded | src/main.rs:58-65 | the padded buffer starts with the input, continues with zeros only, is block-aligned and is strictly longer than the input |
| CollisionForger.Repeat | src/main.rs:66-70 | k copies of a block-aligned buffer are block-aligned |
| CollisionForger.RepeatLength | src/main.rs:68-70 | k copies are k times as long as one copy |
| CollisionForger.RepeatPrefix | src/main.rs:68-70 | one or more copies start with the copy itself |
| CollisionForger.Forge | src/main.rs:57-72 | the forged message is (input ++ r zeros) three times over; its length is 3 * (len + r), a multiple of 32, at least 96, strictly longer than the input and so different from it |
| CollisionForger.DigestZeroPadding | src/main.rs:62-64 | appending zero bytes never changes the digest |
| CollisionForger.OddCountRepeat | src/main.rs:68-70 | in k copies of an aligned buffer, each slot's odd count has the copy's parity when k is odd and is even when k is even |
| CollisionForger.DigestRepeat | src/main.rs:68-70 | k copies of an aligned buffer digest like one copy when k is odd and to all zeros when k is even |
| CollisionForger.ForgeCollision | src/main.rs:82-87 | for every input, including the empty one, the forged message has the same digest as the input |
| CollisionForger.XorHashAttack | src/main.rs:57-72 | the append loop builds exactly the forged message (padded input three times), whose digest equals the input's |
| CollisionForger.AttackDemo | src/main.rs:89-97 | the 33-byte demo input with a 1 at index 31 is forged into 192 bytes; both digests are 1 in slot 31 and 0 elsewhere |

## Left out

- `main` printing a greeting (`src/main.rs:100-102`), and the printing in `attack_demo` (`src/main.rs:92-96`). This is console output; `AttackDemo` states the values that are printed.
- The QuickCheck machinery (`src/main.rs:77`, `src/main.rs:86`). Random sampling is replaced by the universally quantified lemma `ForgeCollision`.
- The unused `TryInto` import (`src/main.rs:1`). It has no effect.
- The "bits" wording of the constant comments (`src/main.rs:3-4`). The code works on bytes and parity slots, and the model follows the code.
- DigestEngine.XorHasher.Finalize: the move semantics of `finalize(self)` are not modelled. Rust rejects any use of the hasher after finalize at compile time; the model only returns the state, and its callers do not use the hasher afterwards.
- DigestEngine.XorHasher.Update: the `usize` overflow of `data.len() + BLOCK_SIZE` is not modelled, because a slice can never be that long. Lengths are unbounded naturals.
- Memory allocation failure while the attack's vectors grow is not modelled. It is a runtime abort outside the algorithm.
