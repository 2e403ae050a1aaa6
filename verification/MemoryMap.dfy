/** The libretro memory map: address reduction, descriptor lookup, and READ/WRITE of core memory as text. */
module MemoryMap {
  import opened Words
  import opened Numerals

  const SIZE_WRAP := 0x1_0000_0000_0000_0000

  type size_t = x: int | 0 <= x < SIZE_WRAP

  // ---- address reduction ----

  /** `o` without the bits where `m` has ones, the higher bits moved down to fill the gaps. */
  function DropBits(o: nat, m: nat): nat {
    if m == 0 then o
    else if m % 2 == 1 then DropBits(o / 2, m / 2)
    else 2 * DropBits(o / 2, m / 2) + o % 2
  }

  /** The bits below the lowest one of `m`: `(mask - 1) & ~mask`, on `n` bits. */
  function LowBits(m: nat, n: nat): nat
    requires 0 < m <= Ones(n)
  {
    And(m - 1, Ones(n) - m)
  }

  /** One pass of the reduction loop on the offset, on `n` bits. */
  function ReducedOffset(o: nat, m: nat, n: nat): nat
    requires 0 < m <= Ones(n)
  {
    var tmp := LowBits(m, n);
    Or(And(o, tmp), And(o / 2, Ones(n) - tmp))
  }

  /** One pass of the reduction loop on the mask. */
  function ReducedMask(m: nat): nat
    requires m > 0
  {
    And(m, m - 1) / 2
  }

  lemma {:induction false} AndComplement(x: nat, n: nat)
    requires x <= Ones(n)
    ensures And(x, Ones(n) - x) == 0
  {
    if n > 0 {
      AndComplement(x / 2, n - 1);
      var y := Ones(n) - x;
      assert y / 2 == Ones(n - 1) - x / 2 && y % 2 == 1 - x % 2;
    }
  }

  lemma {:induction false} AndSelf(x: nat)
    ensures And(x, x) == x
  {
    if x > 0 {
      AndSelf(x / 2);
    }
  }

  lemma {:induction false} OrNothing(x: nat)
    ensures Or(0, x) == x
  {
    if x > 0 {
      OrNothing(x / 2);
    }
  }

  lemma {:induction false} OrEvens(x: nat, y: nat, r: nat)
    requires r < 2
    ensures Or(2 * x + r, 2 * y) == 2 * Or(x, y) + r
  {
  }

  lemma AndParts(x: nat, r: nat, y: nat, t: nat)
    requires r < 2 && t < 2
    ensures And(2 * x + r, 2 * y + t) == 2 * And(x, y) + (if r == 1 && t == 1 then 1 else 0)
  {
  }

  /** A mask with its lowest bit set: the pass drops bit 0. */
  lemma OddMask(o: nat, m: nat, n: nat)
    requires m % 2 == 1 && m <= Ones(n) && o <= Ones(n)
    ensures ReducedOffset(o, m, n) == o / 2 && ReducedMask(m) == m / 2
  {
    hide And, Or;
    var a := m / 2;
    AndParts(a, 1, a, 0);
    AndSelf(a);
    assert And(m, m - 1) == 2 * a;
    AndComplement(a, n - 1);
    AndParts(a, 0, Ones(n - 1) - a, 0);
    assert Ones(n) - m == 2 * (Ones(n - 1) - a);
    assert LowBits(m, n) == 0;
    AndOnes(o / 2, n);
    AndZero(o);
    OrNothing(o / 2);
  }

  /** A number and its predecessor differ in bit 0. */
  lemma EvenAnd(a: nat)
    requires a > 0
    ensures And(a, a - 1) % 2 == 0
  {
    hide And;
    AndParts(a / 2, a % 2, (a - 1) / 2, (a - 1) % 2);
  }

  /** The mask of the bits below an even mask's lowest one, and the mask's next value, from their halves. */
  lemma EvenLowBits(m: nat, n: nat)
    requires m % 2 == 0 && 0 < m <= Ones(n)
    ensures 0 < m / 2 <= Ones(n - 1)
    ensures LowBits(m, n) == 2 * LowBits(m / 2, n - 1) + 1
    ensures ReducedMask(m) == 2 * ReducedMask(m / 2)
  {
    hide And;
    var a := m / 2;
    AndParts(a, 0, a - 1, 1);
    assert m - 1 == 2 * (a - 1) + 1 && And(m, m - 1) == 2 * And(a, a - 1);
    EvenAnd(a);
    AndParts(a - 1, 1, Ones(n - 1) - a, 1);
    assert Ones(n) - m == 2 * (Ones(n - 1) - a) + 1;
  }

  lemma LowBitsFit(m: nat, n: nat)
    requires 0 < m <= Ones(n)
    ensures LowBits(m, n) <= Ones(n)
  {
  }

  /** A mask with its lowest bit clear: the pass keeps bit 0 and works on the halves. */
  lemma EvenMask(o: nat, m: nat, n: nat)
    requires m % 2 == 0 && 0 < m <= Ones(n) && o <= Ones(n)
    ensures 0 < m / 2 <= Ones(n - 1)
    ensures ReducedOffset(o, m, n) == 2 * ReducedOffset(o / 2, m / 2, n - 1) + o % 2
    ensures ReducedMask(m) == 2 * ReducedMask(m / 2)
  {
    hide And, Or, LowBits, ReducedMask;
    EvenLowBits(m, n);
    var q, r, t := o / 2, o % 2, LowBits(m / 2, n - 1);
    LowBitsFit(m / 2, n - 1);
    assert Ones(n) - LowBits(m, n) == 2 * (Ones(n - 1) - t);
    AndParts(q, r, t, 1);
    AndParts(q / 2, q % 2, Ones(n - 1) - t, 0);
    OrEvens(And(q, t), And(q / 2, Ones(n - 1) - t), r);
  }

  /** A pass leaves the remaining bits to drop as they were: the loop computes the bit-dropping function. */
  lemma {:induction false} PassKeepsResult(o: nat, m: nat, n: nat)
    requires 0 < m <= Ones(n) && o <= Ones(n)
    ensures DropBits(ReducedOffset(o, m, n), ReducedMask(m)) == DropBits(o, m)
    ensures ReducedMask(m) < m
    ensures ReducedOffset(o, m, n) <= Ones(n)
  {
    hide ReducedOffset, ReducedMask;
    if m % 2 == 1 {
      OddMask(o, m, n);
    } else {
      EvenMask(o, m, n);
      PassKeepsResult(o / 2, m / 2, n - 1);
    }
  }

  /** The statements of one pass, on 32-bit words. */
  lemma PassOnWords(o: word, m: word)
    requires m != 0
    ensures Ones(32) == 0xFFFF_FFFF
    ensures And(m - 1, 0xFFFF_FFFF - m) == LowBits(m, 32)
    ensures var tmp: word := And(m - 1, 0xFFFF_FFFF - m);
            Or(And(o, tmp), And(Shr(o, 1), 0xFFFF_FFFF - tmp)) == ReducedOffset(o, m, 32) <= 0xFFFF_FFFF
    ensures Shr(And(m, m - 1), 1) == ReducedMask(m) < m
  {
    hide And, Or, DropBits;
    OnesValues();
    PassKeepsResult(o, m, 32);
    assert Shr(o, 1) == o / 2;
  }

  lemma NothingToDrop(o: nat)
    ensures DropBits(o, 0) == o
  {
  }

  /** The reduction loop of `command_memory_get_descriptor`. */
  method ReduceAddress(offset: word, disconnect: word) returns (descOffset: word)
    ensures descOffset == DropBits(offset, disconnect)
  {
    hide And, Or, Shr, DropBits, ReducedOffset, ReducedMask, LowBits, Ones;
    OnesValues();
    descOffset := offset;
    var mask: word := disconnect;
    while mask != 0
      invariant DropBits(descOffset, mask) == DropBits(offset, disconnect)
      decreases mask
    {
      PassKeepsResult(descOffset, mask, 32);
      PassOnWords(descOffset, mask);
      var tmp: word := And(mask - 1, 0xFFFF_FFFF - mask);
      descOffset := Or(And(descOffset, tmp), And(Shr(descOffset, 1), 0xFFFF_FFFF - tmp));
      mask := Shr(And(mask, mask - 1), 1);
    }
    NothingToDrop(descOffset);
  }

  /** How many bits below position `t` the mask drops. */
  function DroppedBelow(m: nat, t: nat): (r: nat)
    ensures r <= t
  {
    if t == 0 then 0 else m % 2 + DroppedBelow(m / 2, t - 1)
  }

  lemma {:induction false} NoneDropped(t: nat)
    ensures DroppedBelow(0, t) == 0
  {
    if t > 0 {
      NoneDropped(t - 1);
    }
  }

  /** Every bit outside the mask survives, moved down by the number of mask bits below it. */
  lemma {:induction false} KeptBit(o: nat, m: nat, t: nat)
    requires !BitSet(m, t)
    ensures BitSet(DropBits(o, m), t - DroppedBelow(m, t)) == BitSet(o, t)
  {
    if m == 0 {
      NoneDropped(t);
    } else if t > 0 {
      KeptBit(o / 2, m / 2, t - 1);
    }
  }

  /** Two offsets agree on every bit outside the mask. */
  predicate SameOutside(o: nat, p: nat, m: nat, n: nat) {
    forall t: nat | t < n && !BitSet(m, t) :: BitSet(o, t) == BitSet(p, t)
  }

  lemma DropHalves(o: nat, m: nat)
    ensures DropBits(o, m) == if m % 2 == 1 then DropBits(o / 2, m / 2) else 2 * DropBits(o / 2, m / 2) + o % 2
  {
  }

  lemma BitHalves(x: nat, t: nat)
    ensures BitSet(x, 0) <==> x % 2 == 1
    ensures BitSet(x, t + 1) == BitSet(x / 2, t)
  {
  }

  lemma SameOutsideHalves(o: nat, p: nat, m: nat, n: nat)
    requires n > 0
    ensures SameOutside(o, p, m, n) <==> (m % 2 == 1 || o % 2 == p % 2) && SameOutside(o / 2, p / 2, m / 2, n - 1)
  {
    hide BitSet;
    BitHalves(o, 0);
    BitHalves(p, 0);
    BitHalves(m, 0);
    if SameOutside(o, p, m, n) {
      forall t: nat | t < n - 1 && !BitSet(m / 2, t)
        ensures BitSet(o / 2, t) == BitSet(p / 2, t)
      {
        BitHalves(o, t);
        BitHalves(p, t);
        BitHalves(m, t);
        assert !BitSet(m, t + 1);
      }
    }
    if (m % 2 == 1 || o % 2 == p % 2) && SameOutside(o / 2, p / 2, m / 2, n - 1) {
      forall t: nat | t < n && !BitSet(m, t)
        ensures BitSet(o, t) == BitSet(p, t)
      {
        if t > 0 {
          BitHalves(o, t - 1);
          BitHalves(p, t - 1);
          BitHalves(m, t - 1);
          assert !BitSet(m / 2, t - 1);
        }
      }
    }
  }

  /** Two offsets reduce to the same result exactly when they agree outside the mask. */
  lemma {:induction false} ReductionKernel(o: nat, p: nat, m: nat, n: nat)
    requires o <= Ones(n) && p <= Ones(n)
    ensures DropBits(o, m) == DropBits(p, m) <==> SameOutside(o, p, m, n)
  {
    hide DropBits, BitSet;
    if n > 0 {
      ReductionKernel(o / 2, p / 2, m / 2, n - 1);
      SameOutsideHalves(o, p, m, n);
      DropHalves(o, m);
      DropHalves(p, m);
    }
  }

  /** On offsets that agree on the masked bits the reduction is injective. */
  lemma ReductionInjective(o: word, p: word, m: word)
    requires DropBits(o, m) == DropBits(p, m)
    requires forall t: nat | t < 32 && BitSet(m, t) :: BitSet(o, t) == BitSet(p, t)
    ensures o == p
  {
    hide DropBits, BitSet;
    OnesValues();
    ReductionKernel(o, p, m, 32);
    EqualByBits(o, p, 32);
  }

  /**
   * `r` is what is left of the `n` bits of `o` outside the mask: bit `t` stands at `t` less the number of mask bits
   * below it, and there is nothing above.
   */
  ghost predicate Reduced(o: nat, m: nat, r: nat, n: nat) {
    && (forall t: nat | t < n && !BitSet(m, t) :: BitSet(r, t - DroppedBelow(m, t)) == BitSet(o, t))
    && r <= Ones(n - DroppedBelow(m, n))
  }

  /** How many mask bits lie below a position, bit by bit. */
  lemma {:induction false} DroppedNext(m: nat, t: nat)
    ensures DroppedBelow(m, 0) == 0
    ensures DroppedBelow(m, t + 1) == DroppedBelow(m, t) + if BitSet(m, t) then 1 else 0
  {
    if t > 0 {
      DroppedNext(m / 2, t - 1);
    }
  }

  lemma DroppedHalves(m: nat, t: nat)
    ensures DroppedBelow(m, t + 1) == m % 2 + DroppedBelow(m / 2, t)
  {
  }

  lemma OnesHalves(r: nat, k: nat)
    ensures r <= Ones(k + 1) <==> r / 2 <= Ones(k)
  {
  }

  /** Dropping bit 0, or keeping it. */
  lemma ReducedHalves(o: nat, m: nat, r: nat, n: nat)
    requires n > 0
    ensures m % 2 == 1 ==> (Reduced(o, m, r, n) <==> Reduced(o / 2, m / 2, r, n - 1))
    ensures m % 2 == 0 ==> (Reduced(o, m, r, n) <==> r % 2 == o % 2 && Reduced(o / 2, m / 2, r / 2, n - 1))
  {
    hide BitSet, DroppedBelow, Ones;
    BitHalves(m, 0);
    BitHalves(o, 0);
    BitHalves(r, 0);
    DroppedNext(m, 0);
    DroppedHalves(m, n - 1);
    OnesHalves(r, n - 1 - DroppedBelow(m / 2, n - 1));
    forall t: nat | t < n - 1
      ensures BitSet(m, t + 1) == BitSet(m / 2, t) && BitSet(o, t + 1) == BitSet(o / 2, t)
      ensures DroppedBelow(m, t + 1) == m % 2 + DroppedBelow(m / 2, t)
      ensures BitSet(r, t - DroppedBelow(m / 2, t) + 1) == BitSet(r / 2, t - DroppedBelow(m / 2, t))
    {
      BitHalves(m, t);
      BitHalves(o, t);
      BitHalves(r, t - DroppedBelow(m / 2, t));
      DroppedHalves(m, t);
    }
    if Reduced(o, m, r, n) {
      if m % 2 == 0 {
        assert !BitSet(m, 0);
        assert BitSet(r, 0 - DroppedBelow(m, 0)) == BitSet(o, 0);
      }
      forall t: nat | t < n - 1 && !BitSet(m / 2, t)
        ensures if m % 2 == 1 then BitSet(r, t - DroppedBelow(m / 2, t)) == BitSet(o / 2, t)
                else BitSet(r / 2, t - DroppedBelow(m / 2, t)) == BitSet(o / 2, t)
      {
        assert !BitSet(m, t + 1);
      }
    }
    var halved := if m % 2 == 1 then Reduced(o / 2, m / 2, r, n - 1)
                  else r % 2 == o % 2 && Reduced(o / 2, m / 2, r / 2, n - 1);
    if halved {
      forall t: nat | t < n && !BitSet(m, t)
        ensures BitSet(r, t - DroppedBelow(m, t)) == BitSet(o, t)
      {
        if t > 0 {
          assert !BitSet(m / 2, t - 1);
          assert BitSet(m, t - 1 + 1) == BitSet(m / 2, t - 1);
        }
      }
    }
  }

  lemma {:induction false} DropNothing(m: nat)
    ensures DropBits(0, m) == 0
  {
    if m > 0 {
      DropNothing(m / 2);
    }
  }

  lemma ReducedNone(m: nat, r: nat)
    ensures Reduced(0, m, r, 0) <==> r == DropBits(0, m)
  {
    DropNothing(m);
  }

  /** The bits of the result tell what the reduction computes. */
  lemma {:induction false} ReducedExact(o: nat, m: nat, r: nat, n: nat)
    requires o <= Ones(n)
    ensures Reduced(o, m, r, n) <==> r == DropBits(o, m)
  {
    hide Reduced, DropBits, BitSet;
    DropHalves(o, m);
    if n == 0 {
      ReducedNone(m, r);
    } else {
      ReducedHalves(o, m, r, n);
      if m % 2 == 1 {
        ReducedExact(o / 2, m / 2, r, n - 1);
      } else {
        ReducedExact(o / 2, m / 2, r / 2, n - 1);
      }
    }
  }

  // ---- descriptors ----

  /**
   * `retro_memory_descriptor` as the commands use it: `data` holds the bytes, the region starting at `dataOffset` in
   * it.
   */
  datatype Descriptor = Descriptor(start: size_t, select: size_t, disconnect: size_t, len: size_t, isConst: bool,
                                   data: array?<byte>, dataOffset: nat)

  /** The buffers reach as far as the descriptors say. */
  predicate ValidMap(descs: seq<Descriptor>) {
    forall i | 0 <= i < |descs| && descs[i].data != null :: descs[i].dataOffset + descs[i].len <= descs[i].data.Length
  }

  /** The offset of `address` in descriptor `d`, or -1 when the descriptor does not hold the address. */
  function OffsetIn(d: Descriptor, address: word): int {
    if d.select == 0 then
      if d.start <= address < (d.start + d.len) % SIZE_WRAP then address - d.start else -1
    else if And(Xor(d.start, address), d.select) != 0 then -1
    else
      var o := DropBits(Wrap(address - d.start), Wrap(d.disconnect));
      if o < d.len then o else -1
  }

  /** An offset found lies inside its descriptor. */
  lemma OffsetInside(d: Descriptor, address: word)
    ensures -1 <= OffsetIn(d, address) < d.len
  {
    hide DropBits;
    if d.start + d.len >= SIZE_WRAP {
      ModUnique(d.start + d.len, SIZE_WRAP, 1, d.start + d.len - SIZE_WRAP);
    }
  }

  /** The address agrees with the descriptor's start in every selected bit. */
  ghost predicate SelectedAgree(d: Descriptor, address: word) {
    forall t: nat | t < 64 && BitSet(d.select, t) :: BitSet(d.start, t) == BitSet(address, t)
  }

  /** `r` is made of the bits of address - start, in 32 bits, outside the disconnect mask. */
  ghost predicate ReducedTo(d: Descriptor, address: word, r: nat) {
    Reduced((address - d.start) % 0x1_0000_0000, d.disconnect % 0x1_0000_0000, r, 32)
  }

  lemma SelectExact(d: Descriptor, address: word)
    ensures And(Xor(d.start, address), d.select) == 0 <==> SelectedAgree(d, address)
  {
    hide And, Xor, BitSet;
    var x := And(Xor(d.start, address), d.select);
    LongOnes();
    forall t: nat
      ensures BitSet(x, t) <==> BitSet(d.start, t) != BitSet(address, t) && BitSet(d.select, t)
    {
      AndBits(Xor(d.start, address), d.select, t);
      XorBits(d.start, address, t);
    }
    if x == 0 {
      forall t: nat | t < 64 && BitSet(d.select, t)
        ensures BitSet(d.start, t) == BitSet(address, t)
      {
        ZeroBits(t);
      }
    }
    if SelectedAgree(d, address) {
      forall t: nat | t < 64
        ensures BitSet(x, t) == BitSet(0, t)
      {
        ZeroBits(t);
      }
      EqualByBits(x, 0, 64);
    }
  }

  /**
   * Which addresses a descriptor holds and at which offset, in plain comparisons and bits. With a select mask: those
   * that agree with the start in every selected bit, at the offset made of the bits of address - start, in 32 bits,
   * outside the disconnect mask, when that is below the length. Without one: those from start up to start + len.
   */
  lemma HeldExact(d: Descriptor, address: word, offset: nat)
    ensures d.select == 0 ==>
              (OffsetIn(d, address) == offset
               <==> d.start <= address < (d.start + d.len) % 0x1_0000_0000_0000_0000 && offset == address - d.start)
    ensures d.select != 0 ==>
              (OffsetIn(d, address) == offset
               <==> && SelectedAgree(d, address) && offset < d.len
                    && ReducedTo(d, address, offset))
  {
    hide And, Xor, DropBits, Reduced, SelectedAgree;
    SelectExact(d, address);
    OnesValues();
    ReducedExact((address - d.start) % 0x1_0000_0000, d.disconnect % 0x1_0000_0000, offset, 32);
  }

  /**
   * Two addresses a descriptor with a select mask holds lead to the same byte exactly when they agree in every bit
   * outside the disconnect mask, counted from the start.
   */
  lemma SameByteExact(d: Descriptor, a: word, b: word)
    requires d.select != 0 && OffsetIn(d, a) >= 0 && OffsetIn(d, b) >= 0
    ensures OffsetIn(d, a) == OffsetIn(d, b)
            <==> forall t: nat | t < 32 && !BitSet(d.disconnect % 0x1_0000_0000, t) ::
                   BitSet((a - d.start) % 0x1_0000_0000, t) == BitSet((b - d.start) % 0x1_0000_0000, t)
  {
    hide And, Xor, DropBits, BitSet;
    OnesValues();
    ReductionKernel((a - d.start) % 0x1_0000_0000, (b - d.start) % 0x1_0000_0000, d.disconnect % 0x1_0000_0000, 32);
  }

  /** Address 4 with bit 1 disconnected: the offset is 2. */
  lemma DisconnectedBit(data: array<byte>)
    ensures OffsetIn(Descriptor(0, 8, 2, 8, false, data, 0), 4) == 2
  {
    assert Xor(0, 4) == 4 by {
      assert Xor(0, 1) == 1 && Xor(0, 2) == 2;
    }
    assert DropBits(4, 2) == 2 by {
      assert DropBits(1, 0) == 1 && DropBits(2, 1) == 1;
    }
  }

  /** The first descriptor that holds the address, or the number of descriptors when none does. */
  function Lookup(descs: seq<Descriptor>, address: word): (index: nat)
    ensures index <= |descs| && forall i | 0 <= i < index :: OffsetIn(descs[i], address) == -1
    ensures index < |descs| ==> 0 <= OffsetIn(descs[index], address) < descs[index].len
  {
    if descs == [] then 0
    else
      OffsetInside(descs[0], address);
      if OffsetIn(descs[0], address) >= 0 then 0 else 1 + Lookup(descs[1..], address)
  }

  lemma {:induction false} LookupIs(descs: seq<Descriptor>, address: word, index: nat)
    requires index <= |descs| && forall i | 0 <= i < index :: OffsetIn(descs[i], address) == -1
    requires index < |descs| ==> OffsetIn(descs[index], address) >= 0
    ensures Lookup(descs, address) == index
  {
    hide OffsetIn;
    if index > 0 {
      assert OffsetIn(descs[0], address) == -1;
      LookupIs(descs[1..], address, index - 1);
    }
  }

  /** Where a descriptor with a select mask holds an address, bit by bit. */
  lemma HeldBits(d: Descriptor, address: word, offset: nat)
    requires d.select != 0 && OffsetIn(d, address) == offset
    ensures forall t: nat | t < 64 && BitSet(d.select, t) :: BitSet(d.start, t) == BitSet(address, t)
    ensures forall t: nat | t < 32 && !BitSet(d.disconnect % 0x1_0000_0000, t) ::
              BitSet(offset, t - DroppedBelow(d.disconnect % 0x1_0000_0000, t))
              == BitSet((address - d.start) % 0x1_0000_0000, t)
    ensures offset < d.len && offset <= Ones(32 - DroppedBelow(d.disconnect % 0x1_0000_0000, 32))
  {
    hide OffsetIn, BitSet, Ones, DroppedBelow;
    HeldExact(d, address, offset);
  }

  /** Why a descriptor does not hold an address. */
  lemma PassedOver(d: Descriptor, address: word)
    requires OffsetIn(d, address) == -1
    ensures if d.select == 0 then !(d.start <= address < (d.start + d.len) % 0x1_0000_0000_0000_0000)
            else
              || (exists t: nat :: t < 64 && BitSet(d.select, t) && BitSet(d.start, t) != BitSet(address, t))
              || forall r: nat | ReducedTo(d, address, r) :: r >= d.len
  {
    hide OffsetIn, BitSet, ReducedTo;
    if d.select == 0 {
      if d.start <= address < (d.start + d.len) % 0x1_0000_0000_0000_0000 {
        HeldExact(d, address, address - d.start);
      }
    } else if SelectedAgree(d, address) {
      forall r: nat | ReducedTo(d, address, r)
        ensures r >= d.len
      {
        HeldExact(d, address, r);
      }
    }
  }

  lemma HeldOrNot(descs: seq<Descriptor>, index: nat, address: word)
    requires index <= |descs| && forall i | 0 <= i < index :: OffsetIn(descs[i], address) == -1
    ensures forall i | 0 <= i < index ::
              var d := descs[i];
              if d.select == 0 then !(d.start <= address < (d.start + d.len) % 0x1_0000_0000_0000_0000)
              else
                || (exists t: nat :: t < 64 && BitSet(d.select, t) && BitSet(d.start, t) != BitSet(address, t))
                || forall r: nat | ReducedTo(d, address, r) :: r >= d.len
    ensures index < |descs| && descs[index].select != 0 && OffsetIn(descs[index], address) >= 0 ==>
              var d, offset := descs[index], OffsetIn(descs[index], address);
              && (forall t: nat | t < 64 && BitSet(d.select, t) :: BitSet(d.start, t) == BitSet(address, t))
              && (forall t: nat | t < 32 && !BitSet(d.disconnect % 0x1_0000_0000, t) ::
                    BitSet(offset, t - DroppedBelow(d.disconnect % 0x1_0000_0000, t))
                    == BitSet((address - d.start) % 0x1_0000_0000, t))
              && offset < d.len && offset <= Ones(32 - DroppedBelow(d.disconnect % 0x1_0000_0000, 32))
  {
    hide OffsetIn, BitSet, DroppedBelow, Ones, ReducedTo;
    forall i | 0 <= i < index
      ensures var d := descs[i];
              if d.select == 0 then !(d.start <= address < (d.start + d.len) % 0x1_0000_0000_0000_0000)
              else
                || (exists t: nat :: t < 64 && BitSet(d.select, t) && BitSet(d.start, t) != BitSet(address, t))
                || forall r: nat | ReducedTo(d, address, r) :: r >= d.len
    {
      PassedOver(descs[i], address);
    }
    if index < |descs| && descs[index].select != 0 && OffsetIn(descs[index], address) >= 0 {
      HeldBits(descs[index], address, OffsetIn(descs[index], address));
    }
  }

  /** `command_memory_get_descriptor`: the first descriptor that holds the address. */
  method GetDescriptor(descs: seq<Descriptor>, address: word) returns (index: nat, offset: nat)
    ensures index == Lookup(descs, address)
    ensures index < |descs| ==> offset == OffsetIn(descs[index], address)
    ensures index < |descs| && descs[index].select == 0 ==>
              var d := descs[index];
              d.start <= address < (d.start + d.len) % 0x1_0000_0000_0000_0000 && offset == address - d.start
    ensures index < |descs| && descs[index].select != 0 ==>
              var d := descs[index];
              && (forall t: nat | t < 64 && BitSet(d.select, t) :: BitSet(d.start, t) == BitSet(address, t))
              && offset < d.len
              && (forall t: nat | t < 32 && !BitSet(d.disconnect % 0x1_0000_0000, t) ::
                    BitSet(offset, t - DroppedBelow(d.disconnect % 0x1_0000_0000, t))
                    == BitSet((address - d.start) % 0x1_0000_0000, t))
              && offset <= Ones(32 - DroppedBelow(d.disconnect % 0x1_0000_0000, 32))
    ensures forall i | 0 <= i < index ::
              var d := descs[i];
              if d.select == 0 then !(d.start <= address < (d.start + d.len) % 0x1_0000_0000_0000_0000)
              else
                || (exists t: nat :: t < 64 && BitSet(d.select, t) && BitSet(d.start, t) != BitSet(address, t))
                || forall r: nat | ReducedTo(d, address, r) :: r >= d.len
  {
    hide And, Xor, DropBits, Lookup, BitSet, DroppedBelow, Ones, ReducedTo;
    index, offset := 0, 0;
    while index < |descs|
      invariant index <= |descs| && forall i | 0 <= i < index :: OffsetIn(descs[i], address) == -1
    {
      var d := descs[index];
      OffsetInside(d, address);
      HeldOrNot(descs, index, address);
      if d.select == 0 {
        if address >= d.start && address < (d.start + d.len) % SIZE_WRAP {
          offset := address - d.start;
          LookupIs(descs, address, index);
          return;
        }
      } else if And(Xor(d.start, address), d.select) == 0 {
        var descOffset := ReduceAddress(Wrap(address - d.start), Wrap(d.disconnect));
        offset := descOffset;
        if descOffset < d.len {
          LookupIs(descs, address, index);
          return;
        }
      }
      index := index + 1;
    }
    HeldOrNot(descs, index, address);
    LookupIs(descs, address, index);
  }

  datatype Pointer = Nowhere(message: string) | At(index: nat, offset: nat, maxBytes: word)

  lemma WrapSmaller(x: nat)
    ensures Wrap(x) <= x
  {
  }

  /** Where an address leads, and how many bytes may be used from there. */
  function PointerTo(descs: seq<Descriptor>, address: word, forWrite: bool): (p: Pointer)
    ensures p.At? <==> Lookup(descs, address) < |descs| && descs[Lookup(descs, address)].data != null
                       && !(forWrite && descs[Lookup(descs, address)].isConst)
    ensures p.At? ==> p.index == Lookup(descs, address) && p.offset + p.maxBytes <= descs[p.index].len
  {
    var i := Lookup(descs, address);
    if |descs| == 0 then Nowhere(" -1 no memory map defined\n")
    else if i == |descs| then Nowhere(" -1 no descriptor for address\n")
    else if descs[i].data == null then Nowhere(" -1 no data for descriptor\n")
    else if forWrite && descs[i].isConst then Nowhere(" -1 descriptor data is readonly\n")
    else
      WrapSmaller(descs[i].len - OffsetIn(descs[i], address));
      At(i, OffsetIn(descs[i], address), Wrap(descs[i].len - OffsetIn(descs[i], address)))
  }

  /**
   * A pointer given lies in the first descriptor that holds the address, and all the bytes it allows are inside that
   * descriptor; below 4 GiB it allows all that are left.
   */
  lemma PointerInside(descs: seq<Descriptor>, address: word, forWrite: bool)
    requires PointerTo(descs, address, forWrite).At?
    ensures var p := PointerTo(descs, address, forWrite);
            && p.index < |descs| && OffsetIn(descs[p.index], address) == p.offset < descs[p.index].len
            && (forall i | 0 <= i < p.index :: OffsetIn(descs[i], address) == -1)
            && p.offset + p.maxBytes <= descs[p.index].len
            && (descs[p.index].len < WORD_SIZE ==> p.offset + p.maxBytes == descs[p.index].len)
  {
    hide OffsetIn, Lookup;
  }

  /** `command_memory_get_pointer` */
  method GetPointer(descs: seq<Descriptor>, address: word, forWrite: bool) returns (p: Pointer)
    ensures p == PointerTo(descs, address, forWrite)
    ensures |descs| == 0 ==> p == Nowhere(" -1 no memory map defined\n")
    ensures |descs| > 0 && (forall d | d in descs :: OffsetIn(d, address) == -1) ==>
              p == Nowhere(" -1 no descriptor for address\n")
    ensures forall i: nat | i < |descs| && OffsetIn(descs[i], address) >= 0
                            && (forall k | 0 <= k < i :: OffsetIn(descs[k], address) == -1) ::
              var d := descs[i];
              p == if d.data == null then Nowhere(" -1 no data for descriptor\n")
                   else if forWrite && d.isConst then Nowhere(" -1 descriptor data is readonly\n")
                   else At(i, OffsetIn(d, address), (d.len - OffsetIn(d, address)) % 0x1_0000_0000)
  {
    hide OffsetIn, Lookup;
    forall i: nat | i < |descs| && OffsetIn(descs[i], address) >= 0
                    && (forall k | 0 <= k < i :: OffsetIn(descs[k], address) == -1)
      ensures Lookup(descs, address) == i
    {
      LookupIs(descs, address, i);
    }
    if |descs| == 0 {
      return Nowhere(" -1 no memory map defined\n");
    }
    var index, offset := GetDescriptor(descs, address);
    if index == |descs| {
      return Nowhere(" -1 no descriptor for address\n");
    }
    if descs[index].data == null {
      return Nowhere(" -1 no data for descriptor\n");
    }
    if forWrite && descs[index].isConst {
      return Nowhere(" -1 descriptor data is readonly\n");
    }
    p := At(index, offset, Wrap(descs[index].len - offset));
  }

  // ---- memory as text ----

  /** `" %02X"` for every byte, one after another. */
  function HexText(bytes: seq<byte>): string {
    if bytes == [] then [] else HexText(bytes[..|bytes| - 1]) + " " + Padded(bytes[|bytes| - 1], 2, 16, true)
  }

  /**
   * The bytes a WRITE stores for the text `arg`: one `strtoul` after another, cut to a byte, at most `maxBytes` of
   * them.
   */
  function WriteBytes(arg: string, maxBytes: nat): (bytes: seq<byte>)
    ensures |bytes| <= maxBytes
    decreases maxBytes
  {
    if arg == [] || maxBytes == 0 then []
    else
      var p := Strtoul(arg, 16);
      [p.value % 0x100] + WriteBytes(arg[p.end..], maxBytes - 1)
  }

  /** A list of hexadecimal numbers, each after one space. */
  function ListText(tokens: seq<string>): string {
    if tokens == [] then [] else " " + tokens[0] + ListText(tokens[1..])
  }

  predicate HexToken(t: string) {
    t != [] && AllDigits(t, 16) && Value(t, 16) <= ULONG_MAX
  }

  /** The low bytes of a list of numbers. */
  function TokenBytes(tokens: seq<string>): (bytes: seq<byte>)
    ensures |bytes| == |tokens|
  {
    seq(|tokens|, i requires 0 <= i < |tokens| => Value(tokens[i], 16) % 0x100)
  }

  function Min(a: nat, b: nat): nat {
    if a < b then a else b
  }

  lemma WriteStep(arg: string, maxBytes: nat, p: Parsed)
    requires arg != [] && maxBytes > 0 && p == Strtoul(arg, 16)
    ensures WriteBytes(arg, maxBytes) == [p.value % 0x100] + WriteBytes(arg[p.end..], maxBytes - 1)
  {
    hide Strtoul;
  }

  lemma WriteNothing(arg: string, maxBytes: nat)
    requires arg == [] || maxBytes == 0
    ensures WriteBytes(arg, maxBytes) == []
  {
  }

  lemma NoNumberIsZero(arg: string)
    requires Strtoul(arg, 16).end == 0
    ensures Strtoul(arg, 16).value == 0
  {
    hide Value;
  }

  /** Text with no number at its start makes WRITE store zeros up to the end of the descriptor. */
  lemma {:induction false} NoNumberZeroFills(arg: string, maxBytes: nat)
    requires arg != [] && Strtoul(arg, 16).end == 0
    ensures WriteBytes(arg, maxBytes) == seq(maxBytes, _ => 0)
  {
    hide Strtoul;
    if maxBytes > 0 {
      NoNumberZeroFills(arg, maxBytes - 1);
      assert arg[0..] == arg;
      NoNumberIsZero(arg);
    }
  }

  /** The numbers of a text, as bytes, up to where there is none. */
  function Numbers(arg: string): seq<byte>
    decreases |arg|
  {
    if arg == [] then []
    else
      var p := Strtoul(arg, 16);
      if p.end == 0 then [] else [p.value % 0x100] + Numbers(arg[p.end..])
  }

  /** What is left of the text there. */
  function Rest(arg: string): string
    decreases |arg|
  {
    if arg == [] then []
    else
      var p := Strtoul(arg, 16);
      if p.end == 0 then arg else Rest(arg[p.end..])
  }

  function ZeroBytes(n: nat): (bytes: seq<byte>)
    ensures |bytes| == n && forall i | 0 <= i < n :: bytes[i] == 0
  {
    seq(n, _ => 0)
  }

  lemma NumbersStep(arg: string, p: Parsed)
    requires arg != [] && p == Strtoul(arg, 16) && p.end > 0
    ensures Numbers(arg) == [p.value % 0x100] + Numbers(arg[p.end..]) && Rest(arg) == Rest(arg[p.end..])
  {
    hide Strtoul;
  }

  lemma ZeroTail(b: byte, numbers: seq<byte>, n: nat)
    requires n > 0
    ensures ([b] + numbers + ZeroBytes(n))[..n] == [b] + (numbers + ZeroBytes(n - 1))[..n - 1]
  {
  }

  /**
   * What WRITE stores, for every text: the numbers, cut at the limit; and when the text does not end after the last of
   * them, zeros from there to the limit.
   */
  lemma {:induction false} WriteExact(arg: string, maxBytes: nat)
    ensures WriteBytes(arg, maxBytes)
            == if Rest(arg) == [] && |Numbers(arg)| <= maxBytes then Numbers(arg)
               else (Numbers(arg) + ZeroBytes(maxBytes))[..maxBytes]
    decreases maxBytes
  {
    hide Strtoul;
    if arg != [] && maxBytes > 0 {
      var p := Strtoul(arg, 16);
      if p.end == 0 {
        NoNumberZeroFills(arg, maxBytes);
        assert Numbers(arg) == [] && Rest(arg) == arg;
      } else {
        hide WriteBytes, Numbers, Rest;
        NumbersStep(arg, p);
        WriteStep(arg, maxBytes, p);
        WriteExact(arg[p.end..], maxBytes - 1);
        ZeroTail(p.value % 0x100, Numbers(arg[p.end..]), maxBytes);
      }
    }
  }

  /** WRITE stores the numbers and nothing else exactly when the text ends after them or they reach the limit. */
  lemma WriteStopsExact(arg: string, maxBytes: nat)
    ensures WriteBytes(arg, maxBytes) == Numbers(arg)[..Min(|Numbers(arg)|, maxBytes)]
            <==> Rest(arg) == [] || |Numbers(arg)| >= maxBytes
    ensures |WriteBytes(arg, maxBytes)|
            == if Rest(arg) == [] && |Numbers(arg)| <= maxBytes then |Numbers(arg)| else maxBytes
  {
    hide WriteBytes, Numbers, Rest;
    WriteExact(arg, maxBytes);
  }

  /** Text that neither continues a number before it nor starts one. */
  predicate NoNumber(tail: string) {
    && (tail != [] ==> !IsDigit(tail[0], 16) && tail[0] != 'x' && tail[0] != 'X')
    && Strtoul(tail, 16).end == 0
  }

  lemma NumbersOfNone(tail: string)
    requires NoNumber(tail)
    ensures Numbers(tail) == [] && Rest(tail) == tail
  {
    hide Strtoul;
  }

  lemma TokenParses(t: string, tail: string)
    requires HexToken(t) && (tail != [] ==> !IsDigit(tail[0], 16) && tail[0] != 'x' && tail[0] != 'X')
    ensures Strtoul(" " + t + tail, 16) == Parsed(Value(t, 16), 1 + |t|)
  {
    hide Value, Strtoul;
    ParseDigits(" ", t, tail, 16);
  }

  /** The numbers of a well-formed list are its tokens, whatever text without a number follows. */
  lemma {:induction false} NumbersOfList(tokens: seq<string>, tail: string)
    requires (forall t | t in tokens :: HexToken(t)) && NoNumber(tail)
    ensures Numbers(ListText(tokens) + tail) == TokenBytes(tokens) && Rest(ListText(tokens) + tail) == tail
  {
    hide HexToken, Value, Strtoul, Numbers, Rest;
    if tokens == [] {
      assert ListText(tokens) + tail == tail;
      NumbersOfNone(tail);
    } else {
      var t, rest := tokens[0], tokens[1..];
      assert t in tokens && forall u | u in rest :: u in tokens;
      var text := " " + t + (ListText(rest) + tail);
      TokenParses(t, ListText(rest) + tail);
      NumbersOfList(rest, tail);
      assert ListText(tokens) + tail == text;
      assert text[1 + |t|..] == ListText(rest) + tail;
      NumbersStep(text, Parsed(Value(t, 16), 1 + |t|));
      assert TokenBytes(tokens) == [Value(t, 16) % 0x100] + TokenBytes(rest);
    }
  }

  lemma BlankText()
    ensures NoNumber("") && NoNumber(" ") && NoNumber("\n")
  {
    hide Value;
    assert " "[1..] == "" && "\n"[1..] == "";
  }

  /** WRITE of a well-formed list stores the low bytes of the first `maxBytes` numbers, and of no others. */
  lemma WriteOfList(tokens: seq<string>, maxBytes: nat)
    requires forall t | t in tokens :: HexToken(t)
    ensures WriteBytes(ListText(tokens), maxBytes) == TokenBytes(tokens)[..Min(|tokens|, maxBytes)]
  {
    hide WriteBytes, Numbers, Rest, HexToken;
    BlankText();
    NumbersOfList(tokens, []);
    assert ListText(tokens) + [] == ListText(tokens);
    WriteExact(ListText(tokens), maxBytes);
  }

  /** A list followed by text without a number is stored with zeros after it, up to the limit. */
  lemma WriteOfListWithTail(tokens: seq<string>, tail: string, maxBytes: nat)
    requires (forall t | t in tokens :: HexToken(t)) && NoNumber(tail) && tail != []
    ensures WriteBytes(ListText(tokens) + tail, maxBytes) == (TokenBytes(tokens) + ZeroBytes(maxBytes))[..maxBytes]
  {
    hide WriteBytes, Numbers, Rest, HexToken, NoNumber;
    NumbersOfList(tokens, tail);
    WriteExact(ListText(tokens) + tail, maxBytes);
  }

  /** " 12 ", with a trailing blank: the byte 0x12, then zeros up to the limit. */
  lemma TrailingBlankZeroFills(maxBytes: nat)
    ensures WriteBytes(" 12 ", maxBytes) == ([0x12] + ZeroBytes(maxBytes))[..maxBytes]
  {
    hide WriteBytes;
    var tokens := ["12"];
    assert Value("1", 16) == 1 && Value("12", 16) == 0x12 by {
      ValueStep("", '1', 16);
      ValueStep("1", '2', 16);
      assert "" + ['1'] == "1" && "1" + ['2'] == "12";
    }
    BlankText();
    assert tokens[1..] == [] && ListText(tokens) == " " + "12" + [];
    WriteOfListWithTail(tokens, " ", maxBytes);
    assert ListText(tokens) + " " == " 12 ";
    assert TokenBytes(tokens) == [0x12];
  }

  /** The tokens READ prints. */
  function ByteTokens(bytes: seq<byte>): seq<string> {
    seq(|bytes|, i requires 0 <= i < |bytes| => Padded(bytes[i], 2, 16, true))
  }

  lemma ByteToken(b: byte)
    ensures HexToken(Padded(b, 2, 16, true)) && Value(Padded(b, 2, 16, true), 16) == b
  {
    hide Value, Padded;
    ValueOfPadded(b, 2, 16, true);
  }

  lemma {:induction false} ListAppend(tokens: seq<string>, t: string)
    ensures ListText(tokens + [t]) == ListText(tokens) + " " + t
  {
    if tokens == [] {
      assert [] + [t] == [t] && [t][1..] == [];
      assert ListText([t]) == " " + t + [];
    } else {
      ListAppend(tokens[1..], t);
      assert (tokens + [t])[1..] == tokens[1..] + [t];
      assert " " + tokens[0] + (ListText(tokens[1..]) + " " + t) == (" " + tokens[0] + ListText(tokens[1..])) + " " + t;
    }
  }

  lemma {:induction false} HexTextIsList(bytes: seq<byte>)
    ensures HexText(bytes) == ListText(ByteTokens(bytes))
  {
    hide Padded;
    if bytes != [] {
      var front, last := bytes[..|bytes| - 1], bytes[|bytes| - 1];
      HexTextIsList(front);
      ListAppend(ByteTokens(front), Padded(last, 2, 16, true));
      assert ByteTokens(bytes) == ByteTokens(front) + [Padded(last, 2, 16, true)];
    }
  }

  /**
   * Giving WRITE the bytes READ printed stores those bytes, as many as fit; with the newline READ ends its reply with,
   * zeros follow them up to the limit.
   */
  lemma ReadWriteRoundTrip(bytes: seq<byte>, maxBytes: nat)
    ensures WriteBytes(HexText(bytes), maxBytes) == bytes[..Min(|bytes|, maxBytes)]
    ensures WriteBytes(HexText(bytes) + "\n", maxBytes) == (bytes + ZeroBytes(maxBytes))[..maxBytes]
  {
    hide HexToken, Value, Padded, WriteBytes, NoNumber;
    var tokens := ByteTokens(bytes);
    HexTextIsList(bytes);
    forall i | 0 <= i < |bytes|
      ensures HexToken(tokens[i]) && Value(tokens[i], 16) % 0x100 == bytes[i]
    {
      ByteToken(bytes[i]);
    }
    assert forall t | t in tokens :: HexToken(t);
    assert TokenBytes(tokens) == bytes;
    WriteOfList(tokens, maxBytes);
    BlankText();
    WriteOfListWithTail(tokens, "\n", maxBytes);
  }

  lemma HexTextNone()
    ensures HexText([]) == []
  {
  }

  lemma HexTextStep(bytes: seq<byte>, b: byte)
    ensures HexText(bytes + [b]) == HexText(bytes) + " " + Padded(b, 2, 16, true)
  {
    assert (bytes + [b])[..|bytes|] == bytes;
  }

  /** The reply part of READ: `nbytes` bytes from the address, as many as the descriptor has, or an error message. */
  method ReadMemory(descs: seq<Descriptor>, address: word, nbytes: word) returns (text: string)
    requires ValidMap(descs)
    ensures var p := PointerTo(descs, address, false);
            if p.Nowhere? then text == p.message
            else
              var d := descs[p.index];
              var base := d.dataOffset + p.offset;
              var n := if nbytes > p.maxBytes then p.maxBytes else nbytes;
              base + n <= d.data.Length && text == HexText(d.data[base..base + n]) + "\n"
  {
    hide OffsetIn, Lookup, HexText, Padded;
    var q := GetPointer(descs, address, false);
    if q.Nowhere? {
      return q.message;
    }
    var d := descs[q.index];
    var n := if nbytes > q.maxBytes then q.maxBytes else nbytes;
    var base := d.dataOffset + q.offset;
    text := [];
    HexTextNone();
    assert d.data[base..base + 0] == [];
    var i := 0;
    while i < n
      invariant 0 <= i <= n && text == HexText(d.data[base..base + i])
    {
      HexTextStep(d.data[base..base + i], d.data[base + i]);
      assert d.data[base..base + i] + [d.data[base + i]] == d.data[base..base + (i + 1)];
      text := text + " " + Padded(d.data[base + i], 2, 16, true);
      i := i + 1;
    }
    text := text + "\n";
  }

  /** The loop of WRITE over the numbers in its argument. */
  method StoreNumbers(data: array<byte>, base: nat, arg: string, max: word) returns (written: nat)
    requires base + max <= data.Length
    modifies data
    ensures var bytes := WriteBytes(arg, max);
            written == |bytes| && data[..] == old(data[..base]) + bytes + old(data[base + |bytes|..])
  {
    hide WriteBytes, Strtoul;
    ghost var before, bytes := data[..], WriteBytes(arg, max);
    var rest, maxBytes := arg, max;
    written := 0;
    while rest != [] && maxBytes > 0
      invariant 0 <= written && 0 <= maxBytes && written + maxBytes == max && written <= |bytes|
      invariant WriteBytes(rest, maxBytes) == bytes[written..]
      invariant data[..] == before[..base] + bytes[..written] + before[base + written..]
      decreases maxBytes
    {
      var parsed := Strtoul(rest, 16);
      WriteStep(rest, maxBytes, parsed);
      assert bytes[written] == bytes[written..][0] && bytes[written..][1..] == bytes[written + 1..];
      data[base + written] := parsed.value % 0x100;
      assert bytes[..written + 1] == bytes[..written] + [bytes[written]];
      maxBytes := maxBytes - 1;
      rest := rest[parsed.end..];
      written := written + 1;
    }
    WriteNothing(rest, maxBytes);
    assert bytes[..written] == bytes;
  }

  /** The byte loop of WRITE: stores the numbers of `arg` from the address on, and touches nothing else. */
  method WriteMemory(descs: seq<Descriptor>, address: word, arg: string) returns (written: nat, p: Pointer)
    requires ValidMap(descs)
    modifies set d | d in descs && d.data != null :: d.data
    ensures p == PointerTo(descs, address, true)
    ensures p.At? ==>
              var d := descs[p.index];
              var base := d.dataOffset + p.offset;
              var bytes := WriteBytes(arg, p.maxBytes);
              && written == |bytes| && base + |bytes| <= d.dataOffset + d.len
              && d.data[..] == old(d.data[..base]) + bytes + old(d.data[base + |bytes|..])
    ensures p.At? ==> forall d | d in descs && d.data != null
        && d.data != descs[p.index].data :: d.data[..] == old(d.data[..])
    ensures p.Nowhere? ==> written == 0 && forall d | d in descs && d.data != null :: d.data[..] == old(d.data[..])
  {
    hide OffsetIn, Strtoul, Lookup;
    p := GetPointer(descs, address, true);
    written := 0;
    if p.Nowhere? {
      return;
    }
    var d := descs[p.index];
    written := StoreNumbers(d.data, d.dataOffset + p.offset, arg, p.maxBytes);
  }

  lemma {:induction false} HexTextLength(bytes: seq<byte>)
    ensures |HexText(bytes)| == 3 * |bytes|
  {
    hide Padded;
    if bytes != [] {
      HexTextLength(bytes[..|bytes| - 1]);
      assert Pow(16, 2) == 16 * Pow(16, 1) == 0x100;
      PaddedWidth(bytes[|bytes| - 1], 2, 16, true);
    }
  }

  lemma TwoHexDigits(b: byte)
    ensures Padded(b, 2, 16, true) == ["0123456789ABCDEF"[b / 16], "0123456789ABCDEF"[b % 16]]
  {
    if b < 16 {
      assert Zeros(1) == "0";
    } else {
      assert Digits(b, 16, true) == Digits(b / 16, 16, true) + [DigitChar(b % 16, true)];
    }
  }

  /** What READ prints, character by character: a space and two upper-case digits for every byte, in order. */
  lemma {:induction false} HexTextLayout(bytes: seq<byte>, i: nat)
    requires i < |bytes|
    ensures |HexText(bytes)| == 3 * |bytes| && HexText(bytes)[3 * i] == ' '
    ensures HexText(bytes)[3 * i + 1] == "0123456789ABCDEF"[bytes[i] / 16]
    ensures HexText(bytes)[3 * i + 2] == "0123456789ABCDEF"[bytes[i] % 16]
  {
    hide Padded;
    var front, last := bytes[..|bytes| - 1], bytes[|bytes| - 1];
    HexTextLength(bytes);
    HexTextLength(front);
    TwoHexDigits(last);
    if i < |front| {
      HexTextLayout(front, i);
    }
  }

  /** How a READ reply starts. */
  function ReadPrefix(address: word): string {
    "READ_CORE_MEMORY " + Digits(address, 16, false)
  }

  /** The size READ computes for its reply, in 32 bits. */
  function ReplySize(nbytes: word): word {
    Wrap(64 + nbytes * 3)
  }

  lemma PrefixLength(address: word)
    ensures |ReadPrefix(address)| <= 25
  {
    hide Digits;
    assert Pow(16, 2) == 16 * Pow(16, 1) == 0x100;
    assert Pow(16, 4) == 16 * Pow(16, 3) == 0x100 * Pow(16, 2);
    assert Pow(16, 6) == 16 * Pow(16, 5) == 0x100 * Pow(16, 4);
    assert Pow(16, 8) == 16 * Pow(16, 7) == 0x100 * Pow(16, 6);
    DigitsWidth(address, 16, false, 8);
  }

  /**
   * The reply with the bytes read fits the size computed exactly when that size is at least the prefix, three
   * characters for every byte and the newline. It always does when the computation does not wrap.
   */
  lemma ReplyFits(address: word, nbytes: word, maxBytes: word, bytes: seq<byte>)
    requires |bytes| == Min(nbytes, maxBytes)
    ensures |ReadPrefix(address) + HexText(bytes) + "\n"| <= ReplySize(nbytes)
            <==> ReplySize(nbytes) >= |ReadPrefix(address)| + 3 * Min(nbytes, maxBytes) + 1
    ensures 64 + nbytes * 3 < WORD_SIZE ==> |ReadPrefix(address) + HexText(bytes) + "\n"| <= ReplySize(nbytes)
  {
    hide Digits, HexText, ReadPrefix;
    HexTextLength(bytes);
    PrefixLength(address);
  }

  /** A request for 1431655766 bytes computes a size of 66, too little for a reply of 16 bytes. */
  lemma ReplySizeWraps(address: word, bytes: seq<byte>)
    requires |bytes| == 16
    ensures ReplySize(1431655766) == 66 < |ReadPrefix(address) + HexText(bytes) + "\n"|
  {
    hide HexText, Digits;
    HexTextLength(bytes);
  }

  /**
   * READ_CORE_MEMORY: an address in hexadecimal, one space, a byte count in decimal. Anything else, and a count of
   * zero, is refused without a reply.
   */
  method ReadCommand(descs: seq<Descriptor>, arg: string) returns (ok: bool, reply: string)
    requires ValidMap(descs)
    ensures var p := Strtoul(arg, 16);
            var nbytes := if p.end < |arg| then Wrap(Strtoul(arg[p.end + 1..], 10).value) else 0;
            && (ok <==> p.end < |arg| && arg[p.end] == ' ' && nbytes != 0)
            && (!ok ==> reply == [])
            && (ok ==> var q := PointerTo(descs, Wrap(p.value), false);
                       reply == "READ_CORE_MEMORY " + Digits(Wrap(p.value), 16, false)
                                + (if q.Nowhere? then q.message
                                   else
                                     var d := descs[q.index];
                                     var base := d.dataOffset + q.offset;
                                     HexText(d.data[base..base + Min(nbytes, q.maxBytes)]) + "\n"))
  {
    hide Strtoul, Digits, HexText, PointerTo, OffsetIn, Lookup;
    ok, reply := false, [];
    var p := Strtoul(arg, 16);
    if p.end == |arg| || arg[p.end] != ' ' {
      return;
    }
    var nbytes := Wrap(Strtoul(arg[p.end + 1..], 10).value);
    if nbytes == 0 {
      return;
    }
    var text := ReadMemory(descs, Wrap(p.value), nbytes);
    ok, reply := true, ReadPrefix(Wrap(p.value)) + text;
  }

  /** The buffer of `d` holds `bytes` from the pointer on, and elsewhere what was in it. */
  ghost predicate Written(before: seq<byte>, d: Descriptor, p: Pointer, bytes: seq<byte>)
    requires p.At? && d.data != null
    reads d.data
  {
    var base := d.dataOffset + p.offset;
    base + |bytes| <= |before| && d.data[..] == before[..base] + bytes + before[base + |bytes|..]
  }

  /** WRITE_CORE_MEMORY: an address in hexadecimal, then the bytes; the reply gives how many were stored. */
  method WriteCommand(descs: seq<Descriptor>, arg: string) returns (reply: string)
    requires ValidMap(descs)
    modifies set d | d in descs && d.data != null :: d.data
    ensures var a := Strtoul(arg, 16);
            var p, numbers := PointerTo(descs, Wrap(a.value), true), arg[a.end..];
            && reply == "WRITE_CORE_MEMORY " + Digits(Wrap(a.value), 16, false)
                        + (if p.Nowhere? then p.message
                           else " " + Digits(|WriteBytes(numbers, p.maxBytes)|, 10, false) + "\n")
            && (p.At? ==> Written(old(descs[p.index].data[..]), descs[p.index], p, WriteBytes(numbers, p.maxBytes)))
            && forall d | d in descs && d.data != null && !(p.At? && d.data == descs[p.index].data) ::
                 d.data[..] == old(d.data[..])
  {
    hide Strtoul, Digits, WriteBytes, PointerTo, OffsetIn, Lookup;
    var a := Strtoul(arg, 16);
    var written, p := WriteMemory(descs, Wrap(a.value), arg[a.end..]);
    reply := "WRITE_CORE_MEMORY " + Digits(Wrap(a.value), 16, false)
             + (if p.Nowhere? then p.message else " " + Digits(written, 10, false) + "\n");
  }

  lemma ReadableIfWritable(descs: seq<Descriptor>, address: word)
    ensures PointerTo(descs, address, true).At? ==> PointerTo(descs, address, true) == PointerTo(descs, address, false)
  {
    hide OffsetIn, Lookup;
  }

  method Refill(data: array<byte>, bytes: seq<byte>)
    requires |bytes| == data.Length
    modifies data
    ensures data[..] == bytes
  {
    forall i | 0 <= i < data.Length {
      data[i] := bytes[i];
    }
  }

  /**
   * A whole round trip on the memory: READ the bytes at a writable address, let the buffer change at will, WRITE the
   * bytes the reply printed. Those bytes are restored, and all others stay as they were changed to.
   */
  method ReadChangeRestore(descs: seq<Descriptor>, address: word, nbytes: word, changed: seq<byte>)
    requires ValidMap(descs) && PointerTo(descs, address, true).At?
    requires |changed| == descs[PointerTo(descs, address, true).index].data.Length
    modifies set d | d in descs && d.data != null :: d.data
    ensures var p := PointerTo(descs, address, true);
            var d := descs[p.index];
            var lo := d.dataOffset + p.offset;
            var hi := lo + Min(nbytes, p.maxBytes);
            hi <= d.data.Length && d.data[..] == changed[..lo] + old(d.data[lo..hi]) + changed[hi..]
  {
    hide WriteBytes, PointerTo, OffsetIn, Lookup, HexText, ZeroBytes;
    ReadableIfWritable(descs, address);
    var text := ReadMemory(descs, address, nbytes);
    var p := GetPointer(descs, address, true);
    PointerInside(descs, address, true);
    var d := descs[p.index];
    ghost var lo := d.dataOffset + p.offset;
    ghost var bytes := d.data[lo..lo + Min(nbytes, p.maxBytes)];
    assert text[..|text| - 1] == HexText(bytes);
    Refill(d.data, changed);
    ReadWriteRoundTrip(bytes, p.maxBytes);
    assert bytes[..Min(|bytes|, p.maxBytes)] == bytes;
    var written, q := WriteMemory(descs, address, text[..|text| - 1]);
  }
}
