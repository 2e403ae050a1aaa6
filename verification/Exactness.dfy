/**
 * Where applying a cheat differs from what its type says: for every such case the exact condition under which it does
 * what it should.
 */
module Exactness {
  import opened Words
  import opened Slots
  import opened SearchSession
  import opened Cheats
  import opened Freeze

  // ---- arithmetic ----

  lemma SameRemainder(a: int, b: int, m: int)
    requires m > 0
    ensures a % m == b % m <==> (a - b) % m == 0
  {
    var p, q := a / m, b / m;
    if a % m == b % m {
      assert a - b == m * (p - q) by {
        assert m * (p - q) == m * p - m * q;
      }
      ModUnique(a - b, m, p - q, 0);
    }
    if (a - b) % m == 0 {
      var k := (a - b) / m;
      assert a == m * (q + k) + b % m by {
        assert m * (q + k) == m * q + m * k;
      }
      ModUnique(a, m, q + k, b % m);
    }
  }

  /** Adding the same number on both sides changes nothing about equality of remainders. */
  lemma CancelSum(x: int, y: int, d: int, m: int)
    requires m > 0
    ensures (x + d) % m == (y + d) % m <==> x % m == y % m
  {
    SameRemainder(x + d, y + d, m);
    SameRemainder(x, y, m);
  }

  /** Wrapping does not show below a width that divides 2^32. */
  lemma WrapBelow(z: int, m: int, k: int)
    requires m > 0 && m * k == WORD_SIZE
    ensures Wrap(z) % m == z % m
  {
    var q := z / WORD_SIZE;
    assert z - Wrap(z) == m * (k * q);
    ModUnique(z - Wrap(z), m, k * q, 0);
    SameRemainder(z, Wrap(z), m);
  }

  lemma QuotientShift(q: int, u: int, r: int)
    requires u > 0
    ensures (q * u + r) / u == q + r / u
  {
    assert q * u + r == u * (q + r / u) + r % u;
    ModUnique(q * u + r, u, q + r / u, r % u);
  }

  // ---- stepping a value ----

  lemma QuotientRest(x: nat, m: nat)
    requires m > 0
    ensures x % m == x % (m + 1) <==> x / (m + 1) % m == 0 && x % (m + 1) < m
  {
    var q, r := x / (m + 1), x % (m + 1);
    assert x == m * q + (q + r);
    SameRemainder(x, q + r, m);
    ModUnique(x - (q + r), m, q, 0);
    if r < m {
      ModUnique(r, m, 0, r);
      SameRemainder(q + r, r, m);
      SameRemainder(q, 0, m);
      ModUnique(0, m, 0, 0);
    }
  }

  /**
   * One value step is a sum cut to the cheat's width exactly when the cut leaves a multiple of the mask above it and
   * is not the mask itself.
   */
  lemma NextValueWidthExact(c: Cheat, v: word)
    requires 3 <= c.memorySearchSize <= 5
    ensures var m, x := ItemMask(c.memorySearchSize), Wrap(v + c.repeatAddToValue);
            NextValue(c, v) == x % (m + 1) <==> x / (m + 1) % m == 0 && x % (m + 1) < m
  {
    var m, x := ItemMask(c.memorySearchSize), Wrap(v + c.repeatAddToValue);
    QuotientRest(x, m);
  }

  /** An 8-bit repeat that counts up by one goes from 254 to 0 and never writes 255. */
  lemma NextValueSkipsMask(c: Cheat)
    requires c.memorySearchSize == 3 && c.repeatAddToValue == 1
    ensures NextValue(c, 254) == 0
  {
  }

  /** How many of the first `k` value steps wrap round 2^32. */
  function Wraps(c: Cheat, v: word, k: nat): (n: nat)
    requires 3 <= c.memorySearchSize <= 5
    ensures n <= k
  {
    if k == 0 then 0
    else Wraps(c, v, k - 1) + (if ValueAt(c, v, k - 1) + c.repeatAddToValue >= WORD_SIZE then 1 else 0)
  }

  lemma StepWithWrap(c: Cheat, v: word)
    requires 3 <= c.memorySearchSize <= 5
    ensures var m, wrap := ItemMask(c.memorySearchSize), if v + c.repeatAddToValue >= WORD_SIZE then 1 else 0;
            && NextValue(c, v) < m && NextValue(c, v) % m == NextValue(c, v) == (v + c.repeatAddToValue - wrap) % m
  {
    var m := ItemMask(c.memorySearchSize);
    var sum: int := v + c.repeatAddToValue;
    if sum >= WORD_SIZE {
      var k := (WORD_SIZE - 1) / m;
      assert m * k == WORD_SIZE - 1;
      ModUnique((sum - 1) - (sum - WORD_SIZE), m, k, 0);
      SameRemainder(sum - 1, sum - WORD_SIZE, m);
    }
    ModUnique(NextValue(c, v), m, 0, NextValue(c, v));
  }

  /** Every wrap takes one off the value modulo the mask, since 2^32 is one more than a multiple of every mask. */
  lemma {:induction false} ValueWithWraps(c: Cheat, v: word, k: nat)
    requires 3 <= c.memorySearchSize <= 5
    ensures ValueAt(c, v, k) % ItemMask(c.memorySearchSize)
            == (v + k * c.repeatAddToValue - Wraps(c, v, k)) % ItemMask(c.memorySearchSize)
    ensures k > 0 ==> ValueAt(c, v, k) < ItemMask(c.memorySearchSize)
  {
    hide NextValue;
    if k > 0 {
      var m, add, before := ItemMask(c.memorySearchSize), c.repeatAddToValue, ValueAt(c, v, k - 1);
      ValueWithWraps(c, v, k - 1);
      StepWithWrap(c, before);
      var rest := v + (k - 1) * add - Wraps(c, v, k - 1);
      var wrap := if before + add >= WORD_SIZE then 1 else 0;
      CancelSum(before, rest, add - wrap, m);
      MulStep(k, add);
      assert rest + (add - wrap) == v + k * add - Wraps(c, v, k);
    }
  }

  /**
   * After any number of steps the value is the start plus the additions, modulo the width mask, exactly when the number
   * of wraps so far is a multiple of the mask.
   */
  lemma ValueExact(c: Cheat, v: word, k: nat)
    requires 3 <= c.memorySearchSize <= 5 && k >= 1
    ensures ValueAt(c, v, k) == (v + k * c.repeatAddToValue) % ItemMask(c.memorySearchSize)
            <==> Wraps(c, v, k) % ItemMask(c.memorySearchSize) == 0
  {
    hide NextValue, Wraps, ItemMask;
    var m, sum, n := ItemMask(c.memorySearchSize), v + k * c.repeatAddToValue, Wraps(c, v, k);
    ValueWithWraps(c, v, k);
    ModUnique(ValueAt(c, v, k), m, 0, ValueAt(c, v, k));
    SameRemainder(sum, sum - n, m);
  }

  // ---- what INCREASE and DECREASE add ----

  predicate Adjusts(c: Cheat) {
    c.cheatType == INCREASE_VALUE || c.cheatType == DECREASE_VALUE
  }

  /** What the cheat is to add to its item or slot. */
  function Delta(c: Cheat): int {
    if c.cheatType == DECREASE_VALUE then -(c.value as int) else c.value
  }

  /**
   * Items of one cheat's width do not overlap, so the last write over an item's first byte is the last over all of
   * it.
   */
  lemma {:induction false} ItemAfterRepeats(mem: seq<byte>, c: Cheat, v: word, n: nat, a: nat)
    requires 3 <= c.memorySearchSize && Fits(c, |mem|) && |mem| < WORD_SIZE
    requires Aligned(a, c.memorySearchSize) && a + BytesPerItem(c.memorySearchSize) <= |mem|
    ensures var w: Width, k := c.memorySearchSize, LastWriter(c, |mem|, n, a);
            ItemValue(Repeat(mem, c, v, n), a, w, c.bigEndian)
            == if k < 0 then ItemValue(mem, a, w, c.bigEndian) else ValueAt(c, v, k) % (ItemMask(w) + 1)
  {
    hide ItemValue, ItemBytes, Store, NextValue, NextAddress, Aligned;
    if n > 0 {
      var w: Width, b := c.memorySearchSize, AddressAt(c, |mem|, n - 1);
      var before, bytes := Repeat(mem, c, v, n - 1), ItemBytes(ValueAt(c, v, n - 1), w, c.bigEndian);
      ItemAfterRepeats(mem, c, v, n - 1, a);
      if a == b {
        ReadAfterWrite(before, a, w, c.bigEndian, ValueAt(c, v, n - 1));
      } else {
        ItemsApart(w, b, a);
        OtherItem(before, b, a, w, c.bigEndian, bytes);
      }
    }
  }

  lemma SumExact(x: nat, y: nat, d: int, m: nat)
    requires (m == 0x100 || m == 0x1_0000 || m == WORD_SIZE) && x < m && y < m
    ensures Wrap(x + d) % m == (y + d) % m <==> x == y
    ensures y == (y + d) % m <==> d % m == 0
  {
    hide Wrap;
    WrapBelow(x + d, m, if m == 0x100 then 0x100_0000 else if m == 0x1_0000 then 0x1_0000 else 1);
    CancelSum(x, y, d, m);
    ModUnique(x, m, 0, x);
    ModUnique(y, m, 0, y);
    SameRemainder(y + d, y, m);
  }

  /**
   * INCREASE and DECREASE of whole items read in the search's byte order and write in the cheat's own. With no repeat
   * over it later, the item changes by the cheat's value exactly when both orders read the same number; with a later
   * repeat over it, the item holds what that repeat wrote; with a repeat count of zero it changes by nothing.
   */
  lemma AdjustExact(mem: seq<byte>, c: Cheat, bigEndian: bool)
    requires Fits(c, |mem|) && |mem| < WORD_SIZE && 3 <= c.memorySearchSize && Adjusts(c)
    ensures var w: Width, m := c.memorySearchSize, ItemMask(c.memorySearchSize) + 1;
            var x, y := ItemValue(mem, c.address, w, bigEndian), ItemValue(mem, c.address, w, c.bigEndian);
            var k := LastWriter(c, |mem|, c.repeatCount, c.address);
            var r := ItemValue(Apply(mem, c, bigEndian), c.address, w, c.bigEndian);
            && r == (if k < 0 then y else ValueAt(c, Wrap(x + Delta(c)), k) % m)
            && (k < 0 <==> c.repeatCount == 0)
            && (k < 0 ==> (r == (y + Delta(c)) % m <==> Delta(c) % m == 0))
            && (k == 0 ==> (r == (y + Delta(c)) % m <==> x == y))
  {
    hide ItemValue, ItemBytes, Repeat, NextValue, NextAddress;
    var w: Width, m := c.memorySearchSize, ItemMask(c.memorySearchSize) + 1;
    var x, y := ItemValue(mem, c.address, w, bigEndian), ItemValue(mem, c.address, w, c.bigEndian);
    ItemAfterRepeats(mem, c, Wrap(x + Delta(c)), c.repeatCount, c.address);
    ItemBelowMask(mem, c.address, w, bigEndian);
    ItemBelowMask(mem, c.address, w, c.bigEndian);
    assert AddressAt(c, |mem|, 0) == c.address;
    SumExact(x, y, Delta(c), m);
  }

  /** A 16-bit big-endian INCREASE while the search is little-endian: 0x0100 plus 1 becomes 2. */
  lemma IncreaseAcrossOrders(c: Cheat)
    requires c.memorySearchSize == 4 && c.address == 0 && c.bigEndian && c.cheatType == INCREASE_VALUE
    requires c.value == 1 && c.repeatCount == 1
    ensures Fits(c, 2) && ItemValue([1, 0], 0, 4, true) == 0x100 && Apply([1, 0], c, false) == [0, 2]
  {
    var mem: seq<byte> := [1, 0];
    assert ItemValue(mem, 0, 4, false) == 1;
    assert Repeat(mem, c, 2, 1) == WriteOnce(Repeat(mem, c, 2, 0), c, AddressAt(c, 2, 0), ValueAt(c, 2, 0));
    assert ItemBytes(2, 4, true) == [0, 2];
  }

  // ---- below a byte ----

  /** The weight of a slot's lowest bit. */
  function Unit(w: Width, part: nat): (u: nat)
    ensures u > 0
  {
    Ones(part * BitsPerPart(w)) + 1
  }

  lemma HalfDivides(x: nat, u: nat)
    requires u > 0
    ensures x / 2 / u == x / (2 * u)
  {
    var q, r := x / 2 / u, x / 2 % u;
    assert x == (2 * u) * q + (2 * r + x % 2);
    ModUnique(x, 2 * u, q, 2 * r + x % 2);
  }

  lemma {:induction false} ShrDivides(x: nat, s: nat)
    ensures Shr(x, s) == x / (Ones(s) + 1)
  {
    if s > 0 {
      ShrDivides(x / 2, s - 1);
      HalfDivides(x, Ones(s - 1) + 1);
    }
  }

  /** A slot's value as quotient and remainder. */
  lemma SubValueIs(v: word, w: Width, part: nat)
    requires w < 3 && part < Parts(w)
    ensures SubValue(v, w, part) == v / Unit(w, part) % (ItemMask(w) + 1)
  {
    hide And;
    ShrDivides(v, part * BitsPerPart(w));
    MaskIsOnes(w);
    AndIsMod(Shr(v, part * BitsPerPart(w)), BitsPerPart(w));
  }

  lemma SmallOnes(s: nat)
    requires s <= 7
    ensures Ones(s) + 1 == [1, 2, 4, 8, 16, 32, 64, 128][s]
  {
    assert Ones(1) == 1 && Ones(2) == 3 && Ones(3) == 7;
    assert Ones(4) == 15 && Ones(5) == 31 && Ones(6) == 63 && Ones(7) == 127;
  }

  lemma UnitDivides(w: Width, part: nat)
    requires w < 3 && part < Parts(w)
    ensures Unit(w, part) * (ItemMask(w) + 1) <= 0x100 && 0x100 % (Unit(w, part) * (ItemMask(w) + 1)) == 0
  {
    hide Ones;
    var s := part * BitsPerPart(w);
    assert s <= 7;
    SmallOnes(s);
  }

  lemma QuotientWraps(z: int, u: nat, n: nat)
    requires u > 0 && n > 0 && u * n <= 0x100 && 0x100 % (u * n) == 0
    ensures Wrap(z) / u % n == z / u % n
  {
    var t := 0x100 / (u * n);
    var k := z / WORD_SIZE * 0x100_0000;
    assert (u * n) * t == 0x100;
    assert z == (n * t * k) * u + Wrap(z) by {
      assert (n * t * k) * u == (u * n) * t * k;
      assert z == z / WORD_SIZE * WORD_SIZE + Wrap(z);
    }
    QuotientShift(n * t * k, u, Wrap(z));
    assert z / u - Wrap(z) / u == n * (t * k);
    ModUnique(z / u - Wrap(z) / u, n, t * k, 0);
    SameRemainder(z / u, Wrap(z) / u, n);
  }

  lemma SumQuotient(b: nat, d: int, u: nat, n: nat)
    requires u > 0 && n > 0 && u * n <= 0x100 && 0x100 % (u * n) == 0
    ensures Wrap(b + d) / u % n == (b / u % n + (b % u + d) / u) % n
  {
    hide Wrap;
    QuotientWraps(b + d, u, n);
    assert b + d == b / u * u + (b % u + d);
    QuotientShift(b / u, u, b % u + d);
    ModPlus(b / u, (b % u + d) / u, n);
  }

  /**
   * A sum's slot: the slot of the byte, plus what the sum of the bits below the slot and the number carries into it.
   */
  lemma SlotOfSum(b: byte, d: int, w: Width, part: nat)
    requires w < 3 && part < Parts(w)
    ensures var u, n := Unit(w, part), ItemMask(w) + 1;
            SubValue(Wrap(b + d), w, part) == (SubValue(b, w, part) + (b % u + d) / u) % n
  {
    hide Wrap, Unit, SubValue, ItemMask;
    SubValueIs(Wrap(b + d), w, part);
    SubValueIs(b, w, part);
    UnitDivides(w, part);
    SumQuotient(b, d, Unit(w, part), ItemMask(w) + 1);
  }

  /** A cheat below a byte writes once or not at all. */
  lemma OneRepeat(mem: seq<byte>, c: Cheat, v: word)
    requires Fits(c, |mem|) && |mem| < WORD_SIZE && c.memorySearchSize < 3
    ensures Repeat(mem, c, v, c.repeatCount)[c.address]
            == if c.repeatCount == 0 then mem[c.address] else MergeByte(mem[c.address], c.addressMask, v)
  {
    hide MergeByte;
    if c.repeatCount == 1 {
      assert Repeat(mem, c, v, 1) == WriteOnce(Repeat(mem, c, v, 0), c, AddressAt(c, |mem|, 0), ValueAt(c, v, 0));
    }
  }

  lemma SameMask(was: byte, mask: word, v: word)
    ensures MergeByte(was, mask, v) == MergeByte(was, mask % 0x100, v)
  {
  }

  /** What writing a byte's sum under the mask of one slot does to that slot and to another. */
  lemma AdjustedSlots(b: byte, mask: word, d: int, w: Width, part: nat, other: nat)
    requires w < 3 && part < Parts(w) && other < Parts(w) && mask % 0x100 == GroupMask(w, part)
    ensures var u, n, r := Unit(w, part), ItemMask(w) + 1, MergeByte(b, mask, Wrap(b + d));
            && (SubValue(r, w, part) == (SubValue(b, w, part) + d) % n <==> (b % u + d) / u % n == d % n)
            && (SubValue(b, w, part) == (SubValue(b, w, part) + d) % n <==> 0 % n == d % n)
            && (other != part ==> SubValue(r, w, other) == SubValue(b, w, other))
  {
    hide SubValue, GroupMask, MergeByte, Unit, ItemMask, Wrap;
    var n, s := ItemMask(w) + 1, SubValue(b, w, part);
    SameMask(b, mask, Wrap(b + d));
    MergedSubValue(b, Wrap(b + d), w, part, part);
    MergedSubValue(b, Wrap(b + d), w, part, other);
    SlotOfSum(b, d, w, part);
    SubValueIs(b, w, part);
    ModUnique(s, n, 0, s);
    CancelSum((b % Unit(w, part) + d) / Unit(w, part), d, s, n);
    CancelSum(0, d, s, n);
  }

  /**
   * INCREASE and DECREASE below a byte work on the whole byte and write back only the bits under the mask. The slot
   * changes by the cheat's value exactly when the bits below the slot and the value together carry that much into it;
   * with a repeat count of zero, when the value is nothing at the slot's width. The other slots never change.
   */
  lemma AdjustSlotExact(mem: seq<byte>, c: Cheat, bigEndian: bool, part: nat, other: nat)
    requires Fits(c, |mem|) && |mem| < WORD_SIZE && c.memorySearchSize < 3 && Adjusts(c)
    requires part < Parts(c.memorySearchSize) && other < Parts(c.memorySearchSize)
    requires c.addressMask % 0x100 == GroupMask(c.memorySearchSize, part)
    ensures var w: Width, b, r := c.memorySearchSize, mem[c.address], Apply(mem, c, bigEndian)[c.address];
            var u, n := Unit(w, part), ItemMask(w) + 1;
            && (SubValue(r, w, part) == (SubValue(b, w, part) + Delta(c)) % n
                <==> (if c.repeatCount == 0 then 0 else (b % u + Delta(c)) / u) % n == Delta(c) % n)
            && (other != part ==> SubValue(r, w, other) == SubValue(b, w, other))
  {
    hide SubValue, GroupMask, MergeByte, Unit, ItemValue, ItemMask, Repeat;
    var w: Width, b := c.memorySearchSize, mem[c.address];
    ByteItem(mem, c.address, w, bigEndian);
    OneRepeat(mem, c, Wrap(b + Delta(c)));
    AdjustedSlots(b, c.addressMask, Delta(c), w, part, other);
  }

  /** The low eight bits of a number are those of its remainder. */
  lemma LowBits(x: nat, t: nat)
    requires t < 8
    ensures BitSet(x % 0x100, t) == BitSet(x, t)
  {
    LowByte(x);
    OnesValues();
    AndBits(x, 0xFF, t);
    OnesBits(8, t);
  }

  /** With any mask, the byte becomes the byte's sum exactly when the sum leaves the bits outside the mask alone. */
  lemma AdjustByteExact(b: byte, mask: word, d: int)
    ensures var sum: byte, m: byte := (b + d) % 0x100, mask % 0x100;
            MergeByte(b, mask, Wrap(b + d)) == sum <==> And(sum, NotByte(m)) == And(b, NotByte(m))
  {
    hide MergeByte, And, BitSet;
    var sum: byte, m: byte, r := (b + d) % 0x100, mask % 0x100, MergeByte(b, mask, Wrap(b + d));
    forall t: nat | t < 8
      ensures BitSet(r, t) == if BitSet(m, t) then BitSet(sum, t) else BitSet(b, t)
      ensures BitSet(And(sum, NotByte(m)), t) <==> BitSet(sum, t) && !BitSet(m, t)
      ensures BitSet(And(b, NotByte(m)), t) <==> BitSet(b, t) && !BitSet(m, t)
    {
      SameMask(b, mask, Wrap(b + d));
      MergeByteBits(b, m, Wrap(b + d), t);
      LowBits(Wrap(b + d), t);
      WrapBelow(b + d, 0x100, 0x100_0000);
      AndBits(sum, NotByte(m), t);
      AndBits(b, NotByte(m), t);
      NotByteBits(m, t);
    }
    if r != sum && And(sum, NotByte(m)) == And(b, NotByte(m)) {
      EqualBytes(r, sum);
    }
    if r == sum {
      EqualBytes(And(sum, NotByte(m)), And(b, NotByte(m)));
    }
  }

  lemma MergedNibble()
    ensures MergeByte(0x10, 0xF0, 0x11) == 0x10
  {
    hide MergeByte, SubValue;
    assert GroupMask(2, 1) == 0xF0 by {
      assert Shl(15, 4) == 240;
    }
    SubValueIs(0x10, 2, 1);
    SubValueIs(0x11, 2, 1);
    assert Ones(4) == 15;
    forall part: nat | part < Parts(2)
      ensures SubValue(MergeByte(0x10, 0xF0, 0x11), 2, part) == SubValue(0x10, 2, part)
    {
      MergedSubValue(0x10, 0x11, 2, 1, part);
    }
    ByteBySlots(MergeByte(0x10, 0xF0, 0x11), 0x10, 2);
  }

  /** A 4-bit INCREASE by one of the upper half of a byte: 0x10 stays 0x10. */
  lemma UpperNibbleStays(c: Cheat, bigEndian: bool)
    requires c.memorySearchSize == 2 && c.address == 0 && c.addressMask == 0xF0 && c.cheatType == INCREASE_VALUE
    requires c.value == 1 && c.repeatCount == 1
    ensures Fits(c, 1) && Apply([0x10], c, bigEndian) == [0x10]
  {
    ByteItem([0x10], 0, 2, bigEndian);
    OneRepeat([0x10], c, 0x11);
    MergedNibble();
  }

  // ---- what a condition compares ----

  /** The value lies between two numbers in the way that makes a condition of this type tell them apart. */
  predicate Separates(c: Cheat, x: word, y: word) {
    var lo, hi := if x < y then x else y, if x < y then y else x;
    if c.cheatType == RUN_NEXT_IF_EQ || c.cheatType == RUN_NEXT_IF_NEQ then x != y && (c.value == x || c.value == y)
    else if c.cheatType == RUN_NEXT_IF_LT then lo <= c.value < hi
    else if c.cheatType == RUN_NEXT_IF_GT then lo < c.value <= hi
    else false
  }

  /** What a condition is about: the item in the cheat's own byte order, or below a byte the slot under its mask. */
  function Meant(mem: seq<byte>, c: Cheat, part: nat): word
    requires Fits(c, |mem|)
  {
    if c.memorySearchSize < 3 then SubValue(mem[c.address], c.memorySearchSize, part)
    else ItemValue(mem, c.address, c.memorySearchSize, c.bigEndian)
  }

  /**
   * A condition compares the item in the search's byte order, and below a byte the whole byte. It decides as it would
   * on its own item or slot exactly when its value does not separate the two.
   */
  lemma ConditionExact(mem: seq<byte>, c: Cheat, bigEndian: bool, part: nat)
    requires Fits(c, |mem|)
    requires c.memorySearchSize < 3 ==>
               part < Parts(c.memorySearchSize) && c.addressMask % 0x100 == GroupMask(c.memorySearchSize, part)
    ensures var read := ItemValue(mem, c.address, c.memorySearchSize, bigEndian);
            SkipsNext(c, read) == SkipsNext(c, Meant(mem, c, part)) <==> !Separates(c, read, Meant(mem, c, part))
  {
    hide ItemValue, SubValue;
  }

  /** A condition on the upper half of a byte: 0x10 holds a 1 there, and RUN_NEXT_IF_EQ with 1 skips. */
  lemma ConditionOnWholeByte(c: Cheat, bigEndian: bool)
    requires c.memorySearchSize == 2 && c.address == 0 && c.addressMask == 0xF0 && c.repeatCount <= 1
    requires c.cheatType == RUN_NEXT_IF_EQ && c.value == 1
    ensures GroupMask(2, 1) == 0xF0
    ensures Fits(c, 1) && SkipsNext(c, ItemValue([0x10], 0, 2, bigEndian)) && Meant([0x10], c, 1) == 1
  {
    ByteItem([0x10], 0, 2, bigEndian);
    SubValueIs(0x10, 2, 1);
    assert Ones(4) == 15 && Shl(15, 4) == 240;
  }
}
