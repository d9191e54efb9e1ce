/** The single-producer/single-consumer descriptor rings shared with the
    kernel. Each ring has a power-of-two number of descriptor slots and two
    free-running counters; slot `counter & mask` is the next one to use. */
module XdpRings {
  import opened XdpCommon

  datatype RingType = Tx | Rx | Completion | Fill {
    /** Rx and Completion rings are read by user space (`XdpRing<Reader>`);
        Tx and Fill rings are written by it (`XdpRing<Writer>`). */
    predicate IsReader() {
      this == Rx || this == Completion
    }
  }

  /** `usize::is_power_of_two` (false for 0). */
  predicate IsPowerOfTwo(n: nat)
    ensures IsPowerOfTwo(n) ==> n >= 1 && (n == 1 || n % 2 == 0)
    decreases n
  {
    if n <= 1 then n == 1 else n % 2 == 0 && IsPowerOfTwo(n / 2)
  }

  function Pow2(k: nat): (n: nat)
    ensures n >= 1
  {
    if k == 0 then 1 else 2 * Pow2(k - 1)
  }

  lemma {:induction false} PowerOfTwoHasExponent(n: nat) returns (k: nat)
    requires IsPowerOfTwo(n)
    ensures Pow2(k) == n
    decreases n
  {
    if n == 1 {
      k := 0;
    } else {
      var j := PowerOfTwoHasExponent(n / 2);
      k := j + 1;
    }
  }

  lemma {:induction false} Pow2IsPowerOfTwo(k: nat)
    ensures IsPowerOfTwo(Pow2(k))
  {
    if k > 0 {
      Pow2IsPowerOfTwo(k - 1);
      assert Pow2(k) / 2 == Pow2(k - 1);
    }
  }

  /** The recursive test accepts exactly the numbers 2^k. */
  lemma PowerOfTwoIff(n: nat)
    ensures IsPowerOfTwo(n) <==> exists k: nat :: Pow2(k) == n
  {
    if IsPowerOfTwo(n) {
      var k := PowerOfTwoHasExponent(n);
    }
    if exists k: nat :: Pow2(k) == n {
      var k: nat :| Pow2(k) == n;
      Pow2IsPowerOfTwo(k);
    }
  }

  // ---------------------------------------------------------------------------
  // Slot indexing

  /** The counters are `u32`; the model keeps them unbounded and takes their
      `u32` value modulo 2^32. */
  const U32_MODULUS: nat := 0x1_0000_0000

  /** The largest ring the model admits. Up to this size the `u32` difference
      of the counters is their true distance (`WrappedDistance`); at 2^32
      slots `size()` itself no longer fits a `u32`. */
  const MAX_RING_SIZE: nat := 0x8000_0000

  lemma MultipleInRange(k: int, n: nat)
    requires n > 0 && -(n as int) < k * n < n
    ensures k == 0
  {
  }

  lemma ModUnique(x: nat, q: int, r: int, n: nat)
    requires n > 0 && 0 <= r < n && x == q * n + r
    ensures x % n == r
  {
    var q', r' := x / n, x % n;
    assert (q - q') * n == r' - r;
    MultipleInRange(q - q', n);
  }

  /** Counters closer than the ring size name different slots. */
  lemma SlotsDiffer(a: nat, b: nat, n: nat)
    requires a < b < a + n
    ensures a % n != b % n
  {
    var qa, qb := a / n, b / n;
    if a % n == b % n {
      assert (qb - qa) * n == b - a;
      MultipleInRange(qb - qa, n);
    }
  }

  /** `a & b` on unsigned integers: bit by bit, least significant bit first. */
  function BitAnd(a: nat, b: nat): (r: nat)
    ensures r <= a && r <= b
    decreases a
  {
    if a == 0 || b == 0 then 0
    else (if a % 2 == 1 && b % 2 == 1 then 1 else 0) + 2 * BitAnd(a / 2, b / 2)
  }

  lemma BitAndOddMask(c: nat, m: nat)
    requires m % 2 == 1
    ensures BitAnd(c, m) == c % 2 + 2 * BitAnd(c / 2, m / 2)
  {
  }

  lemma ModDouble(c: nat, half: nat)
    requires half > 0
    ensures c % (2 * half) == c % 2 + 2 * ((c / 2) % half)
  {
    var q, r := (c / 2) / half, (c / 2) % half;
    assert c == q * (2 * half) + (2 * r + c % 2);
    ModUnique(c, q, 2 * r + c % 2, 2 * half);
  }

  /** Masking with `2^k - 1` keeps the low `k` bits: the remainder modulo `2^k`. */
  lemma {:induction false} BitAndLowMask(c: nat, k: nat)
    ensures BitAnd(c, Pow2(k) - 1) == c % Pow2(k)
    decreases k
  {
    if k > 0 {
      var half := Pow2(k - 1);
      assert Pow2(k) == 2 * half;
      BitAndLowMask(c / 2, k - 1);
      BitAndOddMask(c, 2 * half - 1);
      assert (2 * half - 1) / 2 == half - 1;
      ModDouble(c, half);
    }
  }

  lemma {:induction false} Pow2Split(j: nat, k: nat)
    requires j <= k
    ensures Pow2(k) == Pow2(j) * Pow2(k - j)
    decreases k
  {
    if j < k {
      Pow2Split(j, k - 1);
    }
  }

  lemma {:induction false} Pow2Below(k: nat, m: nat)
    requires Pow2(k) <= Pow2(m)
    ensures k <= m
    decreases m
  {
    if k > 0 && m > 0 {
      Pow2Below(k - 1, m - 1);
    }
  }

  lemma Pow2Of32()
    ensures Pow2(32) == U32_MODULUS
  {
    assert Pow2(4) == 16;
    Pow2Split(4, 8);
    Pow2Split(8, 16);
    Pow2Split(16, 32);
  }

  lemma ModOfMod(c: nat, a: nat, b: nat)
    requires a > 0 && b > 0
    ensures (c % (a * b)) % a == c % a
  {
    var r := c % (a * b);
    var q := c / (a * b);
    assert c == (q * b + r / a) * a + r % a;
    ModUnique(c, q * b + r / a, r % a, a);
  }

  /** The source's slot index `counter & mask`, taken on the `u32` counter
      with `mask = size - 1`, is slot `counter % size` of the unbounded
      counter, for every power-of-two size up to 2^32. */
  lemma MaskedSlot(c: nat, size: nat)
    requires IsPowerOfTwo(size) && size <= U32_MODULUS
    ensures BitAnd(c % U32_MODULUS, size - 1) == c % size
  {
    var k := PowerOfTwoHasExponent(size);
    Pow2Of32();
    Pow2Below(k, 32);
    BitAndLowMask(c % U32_MODULUS, k);
    Pow2Split(k, 32);
    ModOfMod(c, size, Pow2(32 - k));
  }

  /** `p - c` on the counters' `u32` values as a release build computes it,
      wrapping modulo 2^32. */
  function U32Distance(c: nat, p: nat): (d: nat)
    ensures d < U32_MODULUS
  {
    ((p % U32_MODULUS) - (c % U32_MODULUS)) % U32_MODULUS
  }

  /** For counters at most 2^31 apart the `u32` difference is the true
      distance of the unbounded counters; in particular the `u32` values are
      equal exactly when the counters are. */
  lemma WrappedDistance(c: nat, p: nat)
    requires c <= p <= c + MAX_RING_SIZE
    ensures U32Distance(c, p) == p - c
    ensures (c % U32_MODULUS == p % U32_MODULUS) <==> c == p
  {
  }

  // ---------------------------------------------------------------------------
  // The entries in flight

  /** The descriptors between the consumer and the producer counter, oldest first. */
  function PendingOf(slots: seq<XdpDesc>, c: nat, p: nat): (q: seq<XdpDesc>)
    requires |slots| > 0 && c <= p
    ensures |q| == p - c
  {
    seq(p - c, i requires 0 <= i < p - c => slots[(c + i) % |slots|])
  }

  /** A write into slot `p % size` of a ring that is not full leaves every
      pending entry in place and appends the new one. */
  lemma PendingWrite(slots: seq<XdpDesc>, c: nat, p: nat, d: XdpDesc)
    requires |slots| > 0 && c <= p < c + |slots|
    ensures PendingOf(slots[p % |slots| := d], c, p + 1) == PendingOf(slots, c, p) + [d]
  {
    var n := |slots|;
    var before, after := PendingOf(slots, c, p), PendingOf(slots[p % n := d], c, p + 1);
    forall i | 0 <= i < p - c ensures after[i] == before[i] {
      SlotsDiffer(c + i, p, n);
    }
    assert after[p - c] == d;
  }

  /** A read takes the oldest pending entry, from slot `c % size`. */
  lemma PendingRead(slots: seq<XdpDesc>, c: nat, p: nat)
    requires |slots| > 0 && c < p
    ensures PendingOf(slots, c, p)[0] == slots[c % |slots|]
    ensures PendingOf(slots, c + 1, p) == PendingOf(slots, c, p)[1..]
  {
    var before, after := PendingOf(slots, c, p), PendingOf(slots, c + 1, p);
    forall i | 0 <= i < p - c - 1 ensures after[i] == before[i + 1] {
      assert c + 1 + i == c + (i + 1);
    }
  }

  // ---------------------------------------------------------------------------
  // The ring

  class XdpRing {
    const type_: RingType
    const mask: nat
    /** The descriptor slots shared with the kernel. */
    const slots: array<XdpDesc>
    var consumer: nat
    var producer: nat

    ghost predicate Valid()
      reads this
    {
      && slots.Length == mask + 1
      && IsPowerOfTwo(slots.Length) && slots.Length <= MAX_RING_SIZE
      && consumer <= producer <= consumer + slots.Length
    }

    /** `XdpRing::size`: the number of descriptor slots. */
    function Size(): (n: nat)
      reads this
      requires Valid()
      ensures n == slots.Length && IsPowerOfTwo(n) && n <= MAX_RING_SIZE
    {
      mask + 1
    }

    /** The entries written and not yet read, oldest first. */
    ghost function Pending(): seq<XdpDesc>
      reads this, slots
      requires Valid()
    {
      PendingOf(slots[..], consumer, producer)
    }

    /** `XdpRing::new`: `mask = size - 1`; the kernel starts both counters at 0. */
    constructor (type_: RingType, size: nat)
      requires IsPowerOfTwo(size) && size <= MAX_RING_SIZE
      ensures Valid() && fresh(slots)
      ensures this.type_ == type_ && mask == size - 1 && Size() == size
      ensures consumer == 0 && producer == 0 && Pending() == []
    {
      this.type_ := type_;
      mask := size - 1;
      slots := new XdpDesc[size](_ => XdpDesc(0, 0, 0));
      consumer, producer := 0, 0;
    }

    /** `XdpRing<Reader>::read`: take the oldest entry, or nothing when empty. */
    method Read() returns (r: Option<XdpDesc>)
      requires Valid() && type_.IsReader()
      modifies this
      ensures Valid() && producer == old(producer)
      ensures old(Pending()) == [] ==> r == None && unchanged(this)
      ensures old(Pending()) != [] ==>
        && r == Some(old(Pending())[0])
        && consumer == old(consumer) + 1
        && Pending() == old(Pending())[1..]
    {
      var c, p := consumer, producer;
      WrappedDistance(c, p);
      if c % U32_MODULUS == p % U32_MODULUS {
        return None;
      }
      PendingRead(slots[..], c, p);
      MaskedSlot(c, slots.Length);
      r := Some(slots[BitAnd(c % U32_MODULUS, mask)]);
      consumer := c + 1;
    }

    /** `XdpRing<Writer>::write`: append `d`, or report backpressure when full. */
    method Write(d: XdpDesc) returns (r: Result<()>)
      requires Valid() && !type_.IsReader()
      modifies this, slots
      ensures Valid() && consumer == old(consumer)
      ensures r.Err? <==> |old(Pending())| == Size()
      ensures r.Err? ==> r.error == WouldBlock && unchanged(this, slots)
      ensures r.Ok? ==>
        && producer == old(producer) + 1
        && slots[..] == old(slots[..])[old(producer) % Size() := d]
        && Pending() == old(Pending()) + [d]
    {
      var c, p := consumer, producer;
      WrappedDistance(c, p);
      if U32Distance(c, p) > mask {
        return Err(WouldBlock);
      }
      PendingWrite(slots[..], c, p, d);
      MaskedSlot(p, slots.Length);
      slots[BitAnd(p % U32_MODULUS, mask)] := d;
      producer := p + 1;
      r := Ok(());
    }
  }

  /** `rings::build`: a size that is not a power of two is rejected before
      anything is mapped. */
  method Build(type_: RingType, size: nat) returns (r: Result<XdpRing>)
    requires size <= MAX_RING_SIZE
    ensures r.Err? <==> !IsPowerOfTwo(size)
    ensures r.Err? ==> r.error == InvalidInput
    ensures r.Ok? ==>
      && fresh(r.value) && fresh(r.value.slots) && r.value.Valid()
      && r.value.type_ == type_ && r.value.Size() == size && r.value.Pending() == []
  {
    if !IsPowerOfTwo(size) {
      return Err(InvalidInput);
    }
    var ring := new XdpRing(type_, size);
    r := Ok(ring);
  }
}
