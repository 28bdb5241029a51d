/**
 * The digest engine of the weak XOR-parity checksum: a 32-slot accumulator
 * whose every slot holds the parity (0 or 1) of the odd bytes that fell
 * into it.
 *
 * Two specifications of the same digest are given and proved equal:
 *  - Fold / Absorb: the byte-by-byte update rule the hasher's loop applies;
 *  - Digest / OddCount: the closed form, "slot j is 1 exactly when an odd
 *    number of odd bytes sit at positions congruent to j modulo 32".
 * The class XorHasher keeps its state in an array and is proved to follow Fold.
 */
module DigestEngine {

  /** Width of a block: consecutive positions map to consecutive slots modulo this. */
  const BLOCK_SIZE: nat := 32
  /** Number of parity slots in the state and bytes in the digest. */
  const HASH_SIZE: nat := 32

  /** An unsigned 8-bit value (Rust's `u8`). */
  newtype byte = x: int | 0 <= x < 256

  /** `n` zero bytes. */
  function Zeros(n: nat): (z: seq<byte>)
    ensures |z| == n
    ensures forall i :: 0 <= i < n ==> z[i] == 0
  {
    seq(n, _ => 0 as byte)
  }

  /** Every slot of the state holds a parity value, 0 or 1. */
  predicate IsParityState(st: seq<byte>)
  {
    forall j :: 0 <= j < |st| ==> st[j] <= 1
  }

  // ---------------------------------------------------------------------
  // Closed-form specification
  // ---------------------------------------------------------------------

  /** The number of odd bytes of `data` at positions i with i % BLOCK_SIZE == j. */
  function OddCount(data: seq<byte>, j: nat): (c: nat)
    ensures c <= |data|
    decreases |data|
  {
    if |data| == 0 then 0
    else
      var last := |data| - 1;
      OddCount(data[..last], j) + (if last % BLOCK_SIZE == j && data[last] % 2 == 1 then 1 else 0)
  }

  /** The digest of `data`: slot j is the parity of OddCount(data, j). */
  function Digest(data: seq<byte>): (d: seq<byte>)
    ensures |d| == HASH_SIZE
    ensures IsParityState(d)
    ensures data == [] ==> d == Zeros(HASH_SIZE)
  {
    seq(HASH_SIZE, j requires 0 <= j < HASH_SIZE => (OddCount(data, j) % 2) as byte)
  }

  /** No byte of `data` falls into a slot at or beyond its length. */
  lemma {:induction false} OddCountShort(data: seq<byte>, j: nat)
    requires |data| <= j
    ensures OddCount(data, j) == 0
  {
    if |data| > 0 {
      OddCountShort(data[..|data| - 1], j);
    }
  }

  /** Bytes appended after a block-aligned prefix count towards the same slots as on their own. */
  lemma {:induction false} OddCountAppend(a: seq<byte>, b: seq<byte>, j: nat)
    requires |a| % BLOCK_SIZE == 0
    ensures OddCount(a + b, j) == OddCount(a, j) + OddCount(b, j)
  {
    if |b| == 0 {
      assert a + b == a;
    } else {
      var last := |b| - 1;
      assert (a + b)[..|a + b| - 1] == a + b[..last];
      assert (a + b)[|a + b| - 1] == b[last];
      assert (|a| + last) % BLOCK_SIZE == last % BLOCK_SIZE;
      OddCountAppend(a, b[..last], j);
    }
  }

  /** Zero bytes are even, so appending them never changes any slot's count. */
  lemma {:induction false} OddCountZeros(a: seq<byte>, k: nat, j: nat)
    ensures OddCount(a + Zeros(k), j) == OddCount(a, j)
  {
    if k == 0 {
      assert a + Zeros(k) == a;
    } else {
      var s := a + Zeros(k);
      assert s[..|s| - 1] == a + Zeros(k - 1);
      assert s[|s| - 1] == 0;
      OddCountZeros(a, k - 1, j);
    }
  }

  // ---------------------------------------------------------------------
  // Operational specification: the update rule, byte by byte
  // ---------------------------------------------------------------------

  /**
   * One step of `update`: the slot becomes 0 when its parity equals the
   * byte's parity and 1 otherwise, i.e. the XOR of the two parities.
   */
  function Absorb(st: seq<byte>, b: byte, slot: nat): (r: seq<byte>)
    requires slot < |st|
    ensures |r| == |st|
    ensures forall k :: 0 <= k < |st| && k != slot ==> r[k] == st[k]
    ensures r[slot] as int == (st[slot] as int + b as int) % 2
    ensures b % 2 == 0 && st[slot] <= 1 ==> r == st
  {
    st[slot := if st[slot] % 2 == b % 2 then 0 else 1]
  }

  /** All bytes of one `update` call absorbed in order, byte i into slot i % BLOCK_SIZE. */
  function Fold(st: seq<byte>, data: seq<byte>): (r: seq<byte>)
    requires |st| == HASH_SIZE
    ensures |r| == HASH_SIZE
    decreases |data|
  {
    if |data| == 0 then st
    else
      var last := |data| - 1;
      Absorb(Fold(st, data[..last]), data[last], last % BLOCK_SIZE)
  }

  /** Absorbing bytes keeps every slot a parity value. */
  lemma {:induction false} FoldKeepsParity(st: seq<byte>, data: seq<byte>)
    requires |st| == HASH_SIZE && IsParityState(st)
    ensures IsParityState(Fold(st, data))
  {
    if |data| > 0 {
      FoldKeepsParity(st, data[..|data| - 1]);
    }
  }

  /**
   * The update rule against the closed form: a slot that some byte reached
   * ends as the XOR of its old parity and the parity of its odd-byte count;
   * a slot no byte reached (j >= |data|) keeps its old value.
   */
  lemma {:induction false} FoldClosedForm(st: seq<byte>, data: seq<byte>, j: nat)
    requires |st| == HASH_SIZE && j < HASH_SIZE
    ensures Fold(st, data)[j] as int ==
      if j < |data| then (st[j] as int + OddCount(data, j)) % 2 else st[j] as int
  {
    if |data| > 0 {
      var last := |data| - 1;
      var p := data[..last];
      FoldClosedForm(st, p, j);
      FoldLastStep(st, data, j);
      OddCountLastStep(data, j);
      if last % BLOCK_SIZE == j && last <= j {
        OddCountShort(p, j);
      }
      ClosedFormStep(last, j, st[j] as int, data[last] as int, OddCount(p, j), OddCount(data, j),
        Fold(st, p)[j] as int, Fold(st, data)[j] as int);
    }
  }

  /**
   * The arithmetic of one inductive step of FoldClosedForm: `last` is the
   * position of the new byte `b`, `s` the slot's initial value, `cp`/`cd` the
   * slot's odd counts before and after, `fp`/`fd` the slot's value before and after.
   */
  lemma ClosedFormStep(last: nat, j: nat, s: int, b: int, cp: nat, cd: nat, fp: int, fd: int)
    requires j < BLOCK_SIZE && 0 <= s && 0 <= b
    requires fp == if j < last then (s + cp) % 2 else s
    requires fd == if last % BLOCK_SIZE == j then (fp + b) % 2 else fp
    requires cd == cp + if last % BLOCK_SIZE == j && b % 2 == 1 then 1 else 0
    requires last % BLOCK_SIZE == j && last <= j ==> cp == 0
    ensures fd == if j < last + 1 then (s + cd) % 2 else s
  {
    if last % BLOCK_SIZE == j {
      if last <= j {
        ParityAdd(s, b);
      } else {
        ParityAdd(s + cp, b);
      }
    }
  }

  /** The last byte of `data` changes only its own slot, XOR-ing its parity in. */
  lemma {:induction false} FoldLastStep(st: seq<byte>, data: seq<byte>, j: nat)
    requires |st| == HASH_SIZE && j < HASH_SIZE && |data| > 0
    ensures var last := |data| - 1;
      Fold(st, data)[j] as int ==
        if last % BLOCK_SIZE == j then (Fold(st, data[..last])[j] as int + data[last] as int) % 2
        else Fold(st, data[..last])[j] as int
  {
  }

  /** The last byte of `data` adds to its own slot's count exactly when it is odd. */
  lemma {:induction false} OddCountLastStep(data: seq<byte>, j: nat)
    requires |data| > 0
    ensures var last := |data| - 1;
      OddCount(data, j) ==
        OddCount(data[..last], j) + if last % BLOCK_SIZE == j && data[last] % 2 == 1 then 1 else 0
  {
  }

  /** Adding b to a parity bit gives the parity of adding b's own parity bit. */
  lemma ParityAdd(a: nat, b: nat)
    ensures (a % 2 + b) % 2 == (a + if b % 2 == 1 then 1 else 0) % 2
  {
  }

  /** Starting from the all-zero state, the update rule computes exactly the closed-form digest. */
  lemma {:induction false} FoldFromZeros(data: seq<byte>)
    ensures Fold(Zeros(HASH_SIZE), data) == Digest(data)
  {
    var f := Fold(Zeros(HASH_SIZE), data);
    forall j | 0 <= j < HASH_SIZE
      ensures f[j] == Digest(data)[j]
    {
      FoldClosedForm(Zeros(HASH_SIZE), data, j);
      if |data| <= j {
        OddCountShort(data, j);
      }
    }
  }

  /**
   * Slots are indexed by the position within one `update` call's data, not
   * by a running offset: feeding [1] twice is not the same as feeding [1, 1] once.
   */
  lemma UpdateRestartsAtSlotZero()
    ensures Fold(Fold(Zeros(HASH_SIZE), [1]), [1]) != Fold(Zeros(HASH_SIZE), [1, 1])
  {
    var once := Fold(Zeros(HASH_SIZE), [1]);
    assert once[0] == 1;
    assert Fold(once, [1])[1] == 0;
    assert [1, 1][..1] == [1 as byte];
    assert Fold(Zeros(HASH_SIZE), [1, 1])[1] == 1;
  }

  // ---------------------------------------------------------------------
  // The hasher object
  // ---------------------------------------------------------------------

  /** The mutable accumulator: a fixed array of parity slots and an informational block counter. */
  class XorHasher {
    var state: array<byte>
    var blockCount: nat

    ghost predicate Valid()
      reads this, state
    {
      state.Length == HASH_SIZE && IsParityState(state[..])
    }

    /** A fresh hasher: all slots zero, no blocks counted. */
    constructor ()
      ensures Valid() && fresh(state)
      ensures state[..] == Zeros(HASH_SIZE)
      ensures blockCount == 0
    {
      state := new byte[HASH_SIZE](_ => 0);
      blockCount := 0;
    }

    /**
     * Absorbs `data`, byte i into slot i % BLOCK_SIZE, then overwrites the
     * block counter with (|data| + BLOCK_SIZE) / BLOCK_SIZE whatever it held.
     */
    method Update(data: seq<byte>)
      requires Valid()
      modifies state, this`blockCount
      ensures Valid() && state == old(state)
      ensures state[..] == Fold(old(state[..]), data)
      ensures forall j :: 0 <= j < HASH_SIZE ==>
        (state[j] as int ==
         if j < |data| then (old(state[j]) as int + OddCount(data, j)) % 2 else old(state[j]) as int)
      ensures forall j :: |data| <= j < HASH_SIZE ==> state[j] == old(state[j])
      ensures blockCount == (|data| + BLOCK_SIZE) / BLOCK_SIZE
    {
      ghost var st0 := state[..];
      var i := 0;
      while i < |data|
        invariant 0 <= i <= |data|
        invariant state[..] == Fold(st0, data[..i])
      {
        var slot := i % BLOCK_SIZE;
        if state[slot] % 2 == data[i] % 2 {
          state[slot] := 0;
        } else {
          state[slot] := 1;
        }
        assert data[..i + 1][..i] == data[..i];
        i := i + 1;
      }
      assert data[..i] == data;
      FoldKeepsParity(st0, data);
      forall j | 0 <= j < HASH_SIZE
        ensures state[j] as int ==
          if j < |data| then (st0[j] as int + OddCount(data, j)) % 2 else st0[j] as int
      {
        FoldClosedForm(st0, data, j);
      }
      blockCount := (|data| + BLOCK_SIZE) / BLOCK_SIZE;
    }

    /** Hands back the state as the digest; the hasher is not used afterwards. */
    method Finalize() returns (d: seq<byte>)
      requires Valid()
      ensures d == state[..]
      ensures |d| == HASH_SIZE && IsParityState(d)
    {
      d := state[..];
    }
  }

  /** One-shot hashing: a new hasher, one update, finalize. */
  method XorHash(data: seq<byte>) returns (d: seq<byte>)
    ensures d == Digest(data)
  {
    var hasher := new XorHasher();
    hasher.Update(data);
    d := hasher.Finalize();
    FoldFromZeros(data);
  }
}
