/**
 * The collision forger: pads the input with zero bytes up to the next block
 * boundary (always at least one byte, a whole block when the input is
 * already aligned) and repeats the padded buffer three times.
 *
 * Why the forged message collides: zero bytes are even and change no slot;
 * a block-aligned buffer sends each of its bytes to the same slot every time
 * it is repeated; and three copies of a parity XOR to one copy.
 */
module CollisionForger {
  import opened DigestEngine

  /** The number of zero bytes the attack appends to an input of length `n`. */
  function Padding(n: nat): (r: nat)
    ensures 1 <= r <= BLOCK_SIZE
    ensures (n + r) % BLOCK_SIZE == 0
    ensures n % BLOCK_SIZE == 0 ==> r == BLOCK_SIZE
    ensures n % BLOCK_SIZE != 0 ==> r < BLOCK_SIZE
  {
    BLOCK_SIZE - n % BLOCK_SIZE
  }

  /** The input followed by its zero padding: a whole number of blocks, strictly longer than the input. */
  function Padded(data: seq<byte>): (p: seq<byte>)
    ensures |p| == |data| + Padding(|data|)
    ensures |p| % BLOCK_SIZE == 0 && |p| > |data|
    ensures p[..|data|] == data
    ensures forall i :: |data| <= i < |p| ==> p[i] == 0
  {
    data + Zeros(Padding(|data|))
  }

  /** `k` copies of `p`, one after another. */
  function Repeat(p: seq<byte>, k: nat): (r: seq<byte>)
    ensures |p| % BLOCK_SIZE == 0 ==> |r| % BLOCK_SIZE == 0
  {
    if k == 0 then []
    else
      var prev := Repeat(p, k - 1);
      AlignedSum(|prev|, |p|);
      prev + p
  }

  /** Two block-aligned lengths add up to a block-aligned length. */
  lemma AlignedSum(a: nat, b: nat)
    ensures a % BLOCK_SIZE == 0 && b % BLOCK_SIZE == 0 ==> (a + b) % BLOCK_SIZE == 0
  {
  }

  /** `k` copies are `k` times as long as one. */
  lemma {:induction false} RepeatLength(p: seq<byte>, k: nat)
    ensures |Repeat(p, k)| == k * |p|
  {
    if k > 0 {
      RepeatLength(p, k - 1);
      assert k * |p| == (k - 1) * |p| + |p|;
    }
  }

  /** `k > 0` copies start with one copy. */
  lemma {:induction false} RepeatPrefix(p: seq<byte>, k: nat)
    requires k > 0
    ensures |Repeat(p, k)| >= |p| && Repeat(p, k)[..|p|] == p
  {
    if k > 1 {
      RepeatPrefix(p, k - 1);
    }
  }

  /** The forged message: the padded input, appended three times. */
  function Forge(data: seq<byte>): (m: seq<byte>)
    ensures var p := Padded(data); m == p + p + p
    ensures |m| == 3 * (|data| + Padding(|data|))
    ensures |m| % BLOCK_SIZE == 0
    ensures |m| >= 3 * BLOCK_SIZE
    ensures |m| > |data| && m != data
  {
    var p := Padded(data);
    assert Repeat(p, 1) == p;
    assert Repeat(p, 2) == p + p;
    Repeat(p, 3)
  }

  /** Appending zero bytes never changes the digest. */
  lemma DigestZeroPadding(data: seq<byte>, k: nat)
    ensures Digest(data + Zeros(k)) == Digest(data)
  {
    forall j | 0 <= j < HASH_SIZE
      ensures Digest(data + Zeros(k))[j] == Digest(data)[j]
    {
      OddCountZeros(data, k, j);
    }
  }

  /**
   * In `k` copies of a block-aligned buffer every slot sees each odd byte
   * `k` times: an odd number of copies keeps the slot's parity, an even
   * number cancels it.
   */
  lemma {:induction false} OddCountRepeat(p: seq<byte>, k: nat, j: nat)
    requires |p| % BLOCK_SIZE == 0
    ensures OddCount(Repeat(p, k), j) % 2 == if k % 2 == 1 then OddCount(p, j) % 2 else 0
  {
    if k > 0 {
      OddCountRepeat(p, k - 1, j);
      OddCountRepeatStep(p, k, j);
      ParityStep(OddCount(Repeat(p, k - 1), j), OddCount(p, j), k);
    }
  }

  /** One more aligned copy adds the copy's own count to every slot. */
  lemma {:induction false} OddCountRepeatStep(p: seq<byte>, k: nat, j: nat)
    requires |p| % BLOCK_SIZE == 0 && k > 0
    ensures OddCount(Repeat(p, k), j) == OddCount(Repeat(p, k - 1), j) + OddCount(p, j)
  {
    OddCountAppend(Repeat(p, k - 1), p, j);
  }

  /** Adding one more copy's count flips the alternation between "c's parity" and "even". */
  lemma ParityStep(a: nat, c: nat, k: nat)
    requires k >= 1
    requires a % 2 == if (k - 1) % 2 == 1 then c % 2 else 0
    ensures (a + c) % 2 == if k % 2 == 1 then c % 2 else 0
  {
  }

  /**
   * Repeating a block-aligned buffer an odd number of times gives its own
   * digest; an even number of times, the all-zero digest.
   */
  lemma DigestRepeat(p: seq<byte>, k: nat)
    requires |p| % BLOCK_SIZE == 0
    ensures Digest(Repeat(p, k)) == if k % 2 == 1 then Digest(p) else Zeros(HASH_SIZE)
  {
    var d := Digest(Repeat(p, k));
    forall j | 0 <= j < HASH_SIZE
      ensures d[j] == (if k % 2 == 1 then Digest(p) else Zeros(HASH_SIZE))[j]
    {
      OddCountRepeat(p, k, j);
    }
  }

  /** The collision: the forged message digests exactly like the input, for every input. */
  lemma ForgeCollision(data: seq<byte>)
    ensures Digest(Forge(data)) == Digest(data)
  {
    var p := Padded(data);
    assert Forge(data) == Repeat(p, 3);
    DigestRepeat(p, 3);
    assert Digest(Repeat(p, 3)) == Digest(p);
    assert p == data + Zeros(Padding(|data|));
    DigestZeroPadding(data, Padding(|data|));
  }

  /**
   * Forges a message with the same digest as `data`. The remainder test
   * always passes (the padding length is at least 1), so padding is always
   * added; the padded buffer is then appended three times.
   */
  method XorHashAttack(data: seq<byte>) returns (m: seq<byte>)
    ensures m == Forge(data)
    ensures Digest(m) == Digest(data)
  {
    var padded: seq<byte> := [];
    var r := BLOCK_SIZE - |data| % BLOCK_SIZE;
    if r != 0 {
      var padding := Zeros(r);
      padded := padded + data;
      padded := padded + padding;
    }
    assert padded == Padded(data);
    var matching: seq<byte> := [];
    for k := 1 to 4
      invariant matching == Repeat(padded, k - 1)
    {
      matching := matching + padded;
    }
    m := matching;
    ForgeCollision(data);
  }

  /** The demonstration input: 33 bytes, all zero except a 1 at index 31. */
  const DEMO_INPUT: seq<byte> := Zeros(31) + [1, 0]

  /**
   * The demonstration: the 33-byte input is padded to 64 bytes and forged
   * into 192; both digest to a 1 in slot 31 and 0 elsewhere.
   */
  lemma AttackDemo()
    ensures |DEMO_INPUT| == 33
    ensures |Forge(DEMO_INPUT)| == 192
    ensures forall j :: 0 <= j < HASH_SIZE ==> Digest(DEMO_INPUT)[j] == if j == 31 then 1 else 0
    ensures Digest(Forge(DEMO_INPUT)) == Digest(DEMO_INPUT)
  {
    var head := Zeros(31) + [1];
    assert DEMO_INPUT == head + Zeros(1);
    assert head[..31] == [] + Zeros(31);
    forall j | 0 <= j < HASH_SIZE
      ensures Digest(DEMO_INPUT)[j] == if j == 31 then 1 else 0
    {
      OddCountZeros(head, 1, j);
      OddCountZeros([], 31, j);
    }
    ForgeCollision(DEMO_INPUT);
  }
}
