/** Memory as numbers: the weight of every byte of an item, and every slot as a digit of the whole memory. */
module PlaceValue {
  import opened Words
  import opened Slots
  import opened Numerals

  /** The number whose base-256 digits are the bytes, the first byte being the lowest digit. */
  function Number(bytes: seq<byte>): nat {
    if bytes == [] then 0 else bytes[0] + 0x100 * Number(bytes[1..])
  }

  function Reversed(bytes: seq<byte>): (r: seq<byte>)
    ensures |r| == |bytes| && forall k | 0 <= k < |r| :: r[k] == bytes[|bytes| - 1 - k]
  {
    seq(|bytes|, k requires 0 <= k < |bytes| => bytes[|bytes| - 1 - k])
  }

  /** The bytes of an item, the lowest one first. */
  function LowestFirst(bytes: seq<byte>, bigEndian: bool): seq<byte> {
    if bigEndian then Reversed(bytes) else bytes
  }

  lemma NumberOfOne(b: byte)
    ensures Number([b]) == b
  {
    assert [b][1..] == [];
  }

  lemma NumberOfTwo(b0: byte, b1: byte)
    ensures Number([b0, b1]) == b0 + 0x100 * b1
  {
    assert [b0, b1][1..] == [b1];
    NumberOfOne(b1);
  }

  lemma NumberOfFour(b0: byte, b1: byte, b2: byte, b3: byte)
    ensures Number([b0, b1, b2, b3]) == b0 + 0x100 * b1 + 0x1_0000 * b2 + 0x100_0000 * b3
  {
    assert [b0, b1, b2, b3][1..] == [b1, b2, b3] && [b1, b2, b3][1..] == [b2, b3];
    NumberOfTwo(b2, b3);
  }

  lemma FourBytes(mem: seq<byte>, a: nat, bigEndian: bool)
    requires a + 4 <= |mem|
    ensures var m := mem[a..a + 4];
            LowestFirst(m, bigEndian) == if bigEndian then [mem[a + 3], mem[a + 2], mem[a + 1], mem[a]]
                                         else [mem[a], mem[a + 1], mem[a + 2], mem[a + 3]]
  {
  }

  lemma TwoBytes(mem: seq<byte>, a: nat, bigEndian: bool)
    requires a + 2 <= |mem|
    ensures LowestFirst(mem[a..a + 2], bigEndian) == if bigEndian then [mem[a + 1], mem[a]] else [mem[a], mem[a + 1]]
  {
  }

  /** An item of 1, 2 or 4 bytes read little-endian is the number its bytes denote; big-endian, the reversed bytes. */
  lemma ItemNumber(mem: seq<byte>, a: nat, w: Width, bigEndian: bool)
    requires a + BytesPerItem(w) <= |mem|
    ensures BytesPerItem(w) == if w == 5 then 4 else if w == 4 then 2 else 1
    ensures ItemValue(mem, a, w, bigEndian) == Number(LowestFirst(mem[a..a + BytesPerItem(w)], bigEndian))
  {
    hide Number;
    var low := LowestFirst(mem[a..a + BytesPerItem(w)], bigEndian);
    if w == 5 {
      FourBytes(mem, a, bigEndian);
      hide LowestFirst;
      NumberOfFour(low[0], low[1], low[2], low[3]);
    } else if w == 4 {
      TwoBytes(mem, a, bigEndian);
      hide LowestFirst;
      NumberOfTwo(low[0], low[1]);
    } else {
      assert low == [mem[a]];
      NumberOfOne(mem[a]);
    }
  }

  /** The bytes stored for a value denote it in the same way, cut to the item's width. */
  lemma BytesNumber(v: word, w: Width, bigEndian: bool)
    ensures Number(LowestFirst(ItemBytes(v, w, bigEndian), bigEndian))
            == if w == 5 then v else if w == 4 then v % 0x1_0000 else v % 0x100
  {
    hide Number;
    WordOfDigits(v);
    var low := LowestFirst(ItemBytes(v, w, bigEndian), bigEndian);
    if w == 5 {
      assert low == [low[0], low[1], low[2], low[3]];
      NumberOfFour(low[0], low[1], low[2], low[3]);
    } else if w == 4 {
      assert low == [low[0], low[1]];
      NumberOfTwo(low[0], low[1]);
    } else {
      assert low == [low[0]];
      NumberOfOne(low[0]);
    }
  }

  // ---- digits ----

  function Quotient(n: nat, base: nat): nat
    requires base > 0
  {
    MulBound(base, n / base);
    n / base
  }

  /** Digit `j` of `n`, counted from the lowest. */
  function Digit(n: nat, base: nat, j: nat): nat
    requires base > 0
    decreases j
  {
    if j == 0 then n % base else Digit(Quotient(n, base), base, j - 1)
  }

  /** 2^(2^w), the number of values a slot can have. */
  function SlotBase(w: Width): (b: nat)
    ensures b > 1
  {
    if w == 0 then 2 else if w == 1 then 4 else if w == 2 then 16
    else if w == 3 then 0x100 else if w == 4 then 0x1_0000 else 0x1_0000_0000
  }

  lemma AddMultiple(x: nat, base: nat, k: nat)
    requires base > 0
    ensures (x + base * k) % base == x % base && Quotient(x + base * k, base) == Quotient(x, base) + k
  {
    assert x + base * k == base * (x / base + k) + x % base;
    ModUnique(x + base * k, base, x / base + k, x % base);
  }

  lemma PowStep(base: nat, p: nat, m: nat)
    requires p > 0
    ensures Pow(base, p) * m == base * (Pow(base, p - 1) * m)
  {
  }

  /** The low digits do not depend on what is above them. */
  lemma {:induction false} LowDigit(x: nat, m: nat, base: nat, p: nat, j: nat)
    requires base > 0 && j < p
    ensures Digit(x + Pow(base, p) * m, base, j) == Digit(x, base, j)
    decreases p
  {
    hide Pow, Quotient;
    PowStep(base, p, m);
    AddMultiple(x, base, Pow(base, p - 1) * m);
    if j > 0 {
      LowDigit(Quotient(x, base), m, base, p - 1, j - 1);
    }
  }

  lemma QuotientSmaller(x: nat, base: nat, p: nat)
    requires base > 0 && x < base * p
    ensures Quotient(x, base) < p
  {
    QuotientBelow(x, base, p);
  }

  lemma PowNone(base: nat, m: nat)
    ensures Pow(base, 0) == 1 && 0 + Pow(base, 0) * m == m
  {
  }

  lemma NextDigit(n: nat, base: nat, j: nat)
    requires base > 0 && j > 0
    ensures Digit(n, base, j) == Digit(Quotient(n, base), base, j - 1)
  {
  }

  /** Above `p` digits stand the digits of the rest. */
  lemma {:induction false} HighDigit(x: nat, m: nat, base: nat, p: nat, j: nat)
    requires base > 0 && x < Pow(base, p)
    ensures Digit(x + Pow(base, p) * m, base, p + j) == Digit(m, base, j)
    decreases p
  {
    hide Quotient, Pow, Digit;
    if p == 0 {
      PowNone(base, m);
    } else {
      var rest := Pow(base, p - 1) * m;
      PowStep(base, p, m);
      PowStep(base, p, 1);
      AddMultiple(x, base, rest);
      QuotientSmaller(x, base, Pow(base, p - 1));
      NextDigit(x + base * rest, base, p + j);
      HighDigit(Quotient(x, base), m, base, p - 1, j);
    }
  }

  /** The digits of an item fill it. */
  lemma ItemDigits(w: Width)
    ensures Pow(SlotBase(w), Parts(w)) == if w == 5 then 0x1_0000_0000 else if w == 4 then 0x1_0000 else 0x100
  {
    PowOne(SlotBase(w));
    if w < 3 {
      assert Pow(SlotBase(w), 2) == SlotBase(w) * Pow(SlotBase(w), 1);
      assert Pow(SlotBase(w), 4) == SlotBase(w) * (SlotBase(w) * Pow(SlotBase(w), 2));
      assert Pow(SlotBase(w), 8) == Pow(SlotBase(w), 4) * 16 || w > 0 by {
        if w == 0 {
          assert Pow(2, 6) == 2 * (2 * Pow(2, 4));
          assert Pow(2, 8) == 2 * (2 * Pow(2, 6));
        }
      }
    }
  }

  lemma ShiftByBits(x: nat, w: Width)
    requires w < 3
    ensures Shr(x, BitsPerPart(w)) == x / SlotBase(w)
  {
    if w == 2 {
      ShrNibble(x);
    } else if w == 1 {
      assert Shr(x, 2) == Shr(x / 2, 1) == x / 4;
    } else {
      assert Shr(x, 1) == x / 2;
    }
  }

  lemma MaskIsMod(x: nat, w: Width)
    requires w < 3
    ensures And(x, ItemMask(w)) == x % SlotBase(w)
  {
    hide And;
    MaskIsOnes(w);
    OnesValues();
    AndIsMod(x, BitsPerPart(w));
  }

  lemma PartStep(w: Width, part: nat)
    requires part > 0
    ensures part * BitsPerPart(w) == BitsPerPart(w) + (part - 1) * BitsPerPart(w)
  {
  }

  /** What shift and mask cut out of a byte is its digit. */
  lemma {:induction false} SubValueDigit(x: word, w: Width, part: nat)
    requires w < 3
    ensures SubValue(x, w, part) == Digit(x, SlotBase(w), part)
  {
    hide And;
    if part == 0 {
      MaskIsMod(x, w);
    } else {
      ShiftByBits(x, w);
      PartStep(w, part);
      ShrTwice(x, BitsPerPart(w), (part - 1) * BitsPerPart(w));
      SubValueDigit(Quotient(x, SlotBase(w)), w, part - 1);
    }
  }

  lemma NumberFromTwo(mem: seq<byte>)
    requires |mem| >= 2
    ensures Number(mem) == mem[0] + 0x100 * mem[1] + 0x1_0000 * Number(mem[2..])
  {
    assert mem[1..][1..] == mem[2..];
    assert Number(mem[1..]) == mem[1] + 0x100 * Number(mem[2..]);
  }

  lemma NumberFromFour(mem: seq<byte>)
    requires |mem| >= 4
    ensures Number(mem)
            == mem[0] + 0x100 * mem[1] + 0x1_0000 * mem[2] + 0x100_0000 * mem[3] + 0x1_0000_0000 * Number(mem[4..])
  {
    hide Number;
    NumberFromTwo(mem);
    NumberFromTwo(mem[2..]);
    assert mem[2..][2..] == mem[4..];
  }

  /** The first item and what is above it. */
  lemma NumberFromItem(mem: seq<byte>, w: Width)
    requires BytesPerItem(w) <= |mem|
    ensures var n := BytesPerItem(w);
            && ItemValue(mem, 0, w, false) < Pow(SlotBase(w), Parts(w))
            && Number(mem) == ItemValue(mem, 0, w, false) + Pow(SlotBase(w), Parts(w)) * Number(mem[n..])
  {
    hide Pow;
    ItemDigits(w);
    if w == 5 {
      hide Number;
      NumberFromFour(mem);
    } else if w == 4 {
      hide Number;
      NumberFromTwo(mem);
    }
  }

  lemma SlotBelow(mem: seq<byte>, w: Width, j: nat)
    requires j < SlotCount(w, |mem|) && j >= Parts(w)
    ensures BytesPerItem(w) <= |mem| && j - Parts(w) < SlotCount(w, |mem| - BytesPerItem(w))
    ensures SlotAddr(w, j) == SlotAddr(w, j - Parts(w)) + BytesPerItem(w)
    ensures SlotPart(w, j) == SlotPart(w, j - Parts(w))
  {
  }

  lemma FirstSlots(w: Width, j: nat, total: nat)
    requires j < Parts(w) && j < SlotCount(w, total)
    ensures BytesPerItem(w) <= total && SlotAddr(w, j) == 0 && SlotPart(w, j) == j
  {
  }

  lemma WholeItem(v: word, w: Width)
    requires w >= 3 && v < SlotBase(w)
    ensures SubValue(v, w, 0) == v == Digit(v, SlotBase(w), 0)
  {
    hide And, Ones;
    OnesValues();
    AndOnes(v, if w == 3 then 8 else if w == 4 then 16 else 32);
    assert Shr(v, 0) == v;
    ModUnique(v, SlotBase(w), 0, v);
  }

  /** The slots of an item are its digits. */
  lemma SlotOfFirstItem(mem: seq<byte>, w: Width, j: nat)
    requires j < SlotCount(w, |mem|) && j < Parts(w)
    ensures SlotValue(mem, w, false, j) == Digit(Number(mem), SlotBase(w), j)
  {
    hide SlotCount, SlotAddr, SlotPart, SubValue, ItemValue, Number, Digit, Pow;
    FirstSlots(w, j, |mem|);
    NumberFromItem(mem, w);
    var v := ItemValue(mem, 0, w, false);
    LowDigit(v, Number(mem[BytesPerItem(w)..]), SlotBase(w), Parts(w), j);
    if w < 3 {
      SubValueDigit(v, w, j);
    } else {
      ItemDigits(w);
      WholeItem(v, w);
    }
  }

  lemma SameSlot(mem: seq<byte>, w: Width, j: nat, bigEndian: bool)
    requires j < SlotCount(w, |mem|) && j >= Parts(w)
    ensures BytesPerItem(w) <= |mem| && j - Parts(w) < SlotCount(w, |mem| - BytesPerItem(w))
    ensures SlotValue(mem, w, bigEndian, j) == SlotValue(mem[BytesPerItem(w)..], w, bigEndian, j - Parts(w))
  {
    hide SlotCount, SlotAddr, SlotPart, SubValue;
    SlotBelow(mem, w, j);
    SlotInRange(w, j, |mem|);
  }

  /**
   * The slots of a memory are the digits of the number it denotes, read little-endian: slot `j` is digit `j` in base
   * 2^(2^w), for all six widths.
   */
  lemma {:induction false} SlotDigit(mem: seq<byte>, w: Width, j: nat)
    requires j < SlotCount(w, |mem|)
    ensures SlotValue(mem, w, false, j) == Digit(Number(mem), SlotBase(w), j)
    decreases |mem|
  {
    hide SlotCount, SlotValue, ItemValue, Number, Digit, Pow;
    if j < Parts(w) {
      SlotOfFirstItem(mem, w, j);
    } else {
      var n := BytesPerItem(w);
      SameSlot(mem, w, j, false);
      SlotDigit(mem[n..], w, j - Parts(w));
      NumberFromItem(mem, w);
      HighDigit(ItemValue(mem, 0, w, false), Number(mem[n..]), SlotBase(w), Parts(w), j - Parts(w));
    }
  }

  /** Byte order matters for slots of 2 and 4 bytes alone: slot `j` is then its bytes, the first one highest. */
  lemma SlotBigEndian(mem: seq<byte>, w: Width, j: nat)
    requires j < SlotCount(w, |mem|)
    ensures w < 4 ==> SlotValue(mem, w, true, j) == SlotValue(mem, w, false, j)
    ensures w == 4 ==> 2 * j + 2 <= |mem| && SlotValue(mem, w, true, j) == Number(Reversed(mem[2 * j..2 * j + 2]))
    ensures w == 5 ==> 4 * j + 4 <= |mem| && SlotValue(mem, w, true, j) == Number(Reversed(mem[4 * j..4 * j + 4]))
  {
    hide And, SubValue, Number;
    if w >= 4 {
      SlotInRange(w, j, |mem|);
      ItemNumber(mem, SlotAddr(w, j), w, true);
      WholeItem(ItemValue(mem, SlotAddr(w, j), w, true), w);
    }
  }
}
