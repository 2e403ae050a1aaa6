/** The slots a memory search works on: 2^width bits each, packed in bytes or spread over 2 or 4 of them. */
module Slots {
  import opened Words

  /** `search_bit_size` / `memory_search_size`: a slot has 2^width bits. */
  type Width = w: nat | w <= 5

  function BytesPerItem(w: Width): nat {
    if w == 5 then 4 else if w == 4 then 2 else 1
  }

  function BitsPerPart(w: Width): nat {
    if w == 0 then 1 else if w == 1 then 2 else if w == 2 then 4 else 8
  }

  function ItemMask(w: Width): word {
    if w == 0 then 0x01 else if w == 1 then 0x03 else if w == 2 then 0x0F
    else if w == 3 then 0xFF else if w == 4 then 0xFFFF else 0xFFFF_FFFF
  }

  /** `8 / bits`: how many slots share one item. */
  function Parts(w: Width): nat {
    if w == 0 then 8 else if w == 1 then 4 else if w == 2 then 2 else 1
  }

  predicate Aligned(a: int, w: Width) {
    (w == 5 ==> a % 4 == 0) && (w == 4 ==> a % 2 == 0)
  }

  lemma AlignedZero(w: Width)
    ensures Aligned(0, w)
  {
  }

  lemma AlignedSum(a: nat, b: nat, w: Width)
    requires Aligned(a, w) && Aligned(b, w)
    ensures Aligned(a + b, w)
  {
  }

  /** Two aligned addresses are at least an item apart. */
  lemma ItemBefore(a: nat, b: nat, w: Width)
    requires Aligned(a, w) && Aligned(b, w) && a < b
    ensures a + BytesPerItem(w) <= b
  {
  }

  /** Slots of different items lie in different bytes. */
  lemma ItemsApart(w: Width, a: nat, b: nat)
    requires Aligned(a, w) && Aligned(b, w) && a != b
    ensures a + BytesPerItem(w) <= b || b + BytesPerItem(w) <= a
  {
  }

  /** How many slots `total` bytes hold. */
  function SlotCount(w: Width, total: nat): nat {
    if w == 5 then total / 4 else if w == 4 then total / 2 else Parts(w) * total
  }

  /** Address of the item that holds slot `j`. */
  function SlotAddr(w: Width, j: nat): nat {
    if w == 0 then j / 8 else if w == 1 then j / 4 else if w == 2 then j / 2 else BytesPerItem(w) * j
  }

  /** Position of slot `j` inside its item, counted in slots. */
  function SlotPart(w: Width, j: nat): nat {
    if w == 0 then j % 8 else if w == 1 then j % 4 else if w == 2 then j % 2 else 0
  }

  /** Number of the first slot of the item at `a`. */
  function FirstSlot(w: Width, a: nat): nat {
    if w == 5 then a / 4 else if w == 4 then a / 2 else Parts(w) * a
  }

  lemma SlotInRange(w: Width, j: nat, total: nat)
    requires j < SlotCount(w, total)
    ensures SlotAddr(w, j) + BytesPerItem(w) <= total && SlotPart(w, j) < Parts(w)
    ensures Aligned(SlotAddr(w, j), w)
    ensures j == FirstSlot(w, SlotAddr(w, j)) + SlotPart(w, j)
  {
  }

  lemma SlotOfItem(w: Width, a: nat, part: nat)
    requires Aligned(a, w) && part < Parts(w)
    ensures SlotAddr(w, FirstSlot(w, a) + part) == a
    ensures SlotPart(w, FirstSlot(w, a) + part) == part
    ensures forall total: nat | a + BytesPerItem(w) <= total :: FirstSlot(w, a) + part < SlotCount(w, total)
    ensures FirstSlot(w, a + BytesPerItem(w)) == FirstSlot(w, a) + Parts(w)
  {
  }

  /** `(total_memory_size * 8) / (1 << search_bit_size)` */
  function StartingMatches(w: Width, total: nat): nat {
    total * 8 / (if w == 0 then 1 else if w == 1 then 2 else if w == 2 then 4
                 else if w == 3 then 8 else if w == 4 then 16 else 32)
  }

  /** The closed form that starts `num_matches` is the number of slots. */
  lemma StartingCount(w: Width, total: nat)
    ensures StartingMatches(w, total) == SlotCount(w, total) <= total * 8
    ensures Aligned(total, w) ==> SlotCount(w, total) == FirstSlot(w, total)
  {
  }

  lemma LastItem(total: nat, w: Width)
    requires Aligned(total, w) && total > 0
    ensures total >= BytesPerItem(w) && Aligned(total - BytesPerItem(w), w)
  {
    var n := BytesPerItem(w);
    if w >= 4 {
      assert total == n * (total / n);
      ModUnique(total - n, n, total / n - 1, 0);
    }
  }

  /** A search over `total` bytes stays inside buffers of `length` bytes exactly when there are no fewer of those. */
  lemma SearchBounds(total: nat, length: nat, w: Width)
    requires Aligned(total, w)
    ensures (forall a: nat | a < total && Aligned(a, w) :: a + BytesPerItem(w) <= length) <==> total <= length
  {
    hide Aligned;
    if total <= length {
      forall a: nat | a < total && Aligned(a, w)
        ensures a + BytesPerItem(w) <= length
      {
        ItemBefore(a, total, w);
      }
    } else {
      LastItem(total, w);
      assert total - BytesPerItem(w) < total;
    }
  }

  // ---- reading and writing items ----

  /** The value of the item at `a`, as every read in the cheat engine computes it. */
  function ItemValue(mem: seq<byte>, a: nat, w: Width, bigEndian: bool): word
    requires a + BytesPerItem(w) <= |mem|
  {
    var b0: nat := mem[a];
    if w == 4 then
      var b1: nat := mem[a + 1];
      if bigEndian then b0 * 0x100 + b1 else b0 + b1 * 0x100
    else if w == 5 then
      var b1: nat, b2: nat, b3: nat := mem[a + 1], mem[a + 2], mem[a + 3];
      if bigEndian then b0 * 0x100_0000 + b1 * 0x1_0000 + b2 * 0x100 + b3
      else b0 + b1 * 0x100 + b2 * 0x1_0000 + b3 * 0x100_0000
    else b0
  }

  /** The bytes of the value `v`, in the order a write stores them. */
  function ItemBytes(v: word, w: Width, bigEndian: bool): (bytes: seq<byte>)
    ensures |bytes| == BytesPerItem(w)
  {
    var b0, b1, b2, b3 := v % 0x100, v / 0x100 % 0x100, v / 0x1_0000 % 0x100, v / 0x100_0000;
    if w == 4 then
      if bigEndian then [b1, b0] else [b0, b1]
    else if w == 5 then
      if bigEndian then [b3, b2, b1, b0] else [b0, b1, b2, b3]
    else [b0]
  }

  /** `mem` with `bytes` stored from `a` on. */
  function Store(mem: seq<byte>, a: nat, bytes: seq<byte>): (r: seq<byte>)
    requires a + |bytes| <= |mem|
    ensures |r| == |mem|
  {
    mem[..a] + bytes + mem[a + |bytes|..]
  }

  lemma StoredByte(mem: seq<byte>, a: nat, bytes: seq<byte>, k: nat)
    requires a + |bytes| <= |mem| && k < |mem|
    ensures Store(mem, a, bytes)[k] == if a <= k < a + |bytes| then bytes[k - a] else mem[k]
  {
  }

  /** A word is the sum of its four bytes. */
  lemma WordOfDigits(v: word)
    ensures v == v % 0x100 + v / 0x100 % 0x100 * 0x100 + v / 0x1_0000 % 0x100 * 0x1_0000 + v / 0x100_0000 * 0x100_0000
    ensures v % 0x1_0000 == v % 0x100 + v / 0x100 % 0x100 * 0x100
  {
    var q := v / 0x100;
    assert v == q * 0x100 + v % 0x100;
    var r := v / 0x1_0000;
    assert r == q / 0x100 && q == r * 0x100 + q % 0x100;
    assert r / 0x100 == v / 0x100_0000 && r == r / 0x100 * 0x100 + r % 0x100;
  }

  /** The bytes of a word built from four bytes are those bytes. */
  lemma DigitsOfWord(b0: byte, b1: byte, b2: byte, b3: byte)
    ensures var v := b0 as int + b1 as int * 0x100 + b2 as int * 0x1_0000 + b3 as int * 0x100_0000;
            v % 0x100 == b0 && v / 0x100 % 0x100 == b1 && v / 0x1_0000 % 0x100 == b2 && v / 0x100_0000 == b3
  {
    var v := b0 as int + b1 as int * 0x100 + b2 as int * 0x1_0000 + b3 as int * 0x100_0000;
    assert v / 0x100 == b1 as int + b2 as int * 0x100 + b3 as int * 0x1_0000;
    assert v / 0x1_0000 == b2 as int + b3 as int * 0x100;
  }

  lemma ValueOfBytes(v: word, w: Width, bigEndian: bool)
    requires w >= 3
    ensures ItemValue(ItemBytes(v, w, bigEndian), 0, w, bigEndian) == v % (ItemMask(w) + 1)
  {
    WordOfDigits(v);
  }

  /** Writing an item and reading it back with the same byte order gives the value, cut to the item's width. */
  lemma ReadAfterWrite(mem: seq<byte>, a: nat, w: Width, bigEndian: bool, v: word)
    requires w >= 3 && a + BytesPerItem(w) <= |mem|
    ensures ItemValue(Store(mem, a, ItemBytes(v, w, bigEndian)), a, w, bigEndian) == v % (ItemMask(w) + 1)
  {
    hide Store, ItemBytes, ItemMask;
    ValueOfBytes(v, w, bigEndian);
    var bytes := ItemBytes(v, w, bigEndian);
    StoredByte(mem, a, bytes, a);
    if w == 4 {
      StoredByte(mem, a, bytes, a + 1);
    } else if w == 5 {
      StoredByte(mem, a, bytes, a + 1);
      StoredByte(mem, a, bytes, a + 2);
      StoredByte(mem, a, bytes, a + 3);
    }
  }

  /** Writing back the value just read stores the bytes that were there. */
  lemma WriteAfterRead(mem: seq<byte>, a: nat, w: Width, bigEndian: bool)
    requires w >= 3 && a + BytesPerItem(w) <= |mem|
    ensures ItemBytes(ItemValue(mem, a, w, bigEndian), w, bigEndian) == mem[a..a + BytesPerItem(w)]
  {
    var m := mem[a..a + BytesPerItem(w)];
    if w == 3 {
      DigitsOfWord(m[0], 0, 0, 0);
    } else if w == 4 {
      if bigEndian { DigitsOfWord(m[1], m[0], 0, 0); } else { DigitsOfWord(m[0], m[1], 0, 0); }
    } else {
      if bigEndian { DigitsOfWord(m[3], m[2], m[1], m[0]); } else { DigitsOfWord(m[0], m[1], m[2], m[3]); }
    }
  }

  // ---- the slots inside an item ----

  lemma GroupMaskFits(w: Width, part: nat)
    requires w < 3 && part < Parts(w)
    ensures 0 < Shl(ItemMask(w), part * BitsPerPart(w)) <= 0xFF
  {
    assert Shl(1, 1) == 2 && Shl(1, 2) == 4 && Shl(1, 3) == 8;
    assert Shl(1, 4) == 16 && Shl(1, 5) == 32 && Shl(1, 6) == 64 && Shl(1, 7) == 128;
    assert Shl(3, 2) == 12 && Shl(3, 4) == 48 && Shl(3, 6) == 192;
    assert Shl(15, 4) == 240;
  }

  /** `mask << (byte_part * bits)` for slots narrower than a byte. */
  function GroupMask(w: Width, part: nat): byte
    requires w < 3 && part < Parts(w)
  {
    GroupMaskFits(w, part);
    Shl(ItemMask(w), part * BitsPerPart(w))
  }

  /** `(val >> (byte_part * bits)) & mask` */
  function SubValue(v: word, w: Width, part: nat): word {
    And(Shr(v, part * BitsPerPart(w)), ItemMask(w))
  }

  /** The value of slot `j`. */
  function SlotValue(mem: seq<byte>, w: Width, bigEndian: bool, j: nat): word
    requires j < SlotCount(w, |mem|)
  {
    SlotInRange(w, j, |mem|);
    SubValue(ItemValue(mem, SlotAddr(w, j), w, bigEndian), w, SlotPart(w, j))
  }

  /** The match bits of slot `j` in the packed array, as the search tests them. */
  function MatchBits(ms: seq<byte>, w: Width, j: nat): byte
    requires j < SlotCount(w, |ms|)
  {
    SlotInRange(w, j, |ms|);
    if w < 3 then And(ms[SlotAddr(w, j)], GroupMask(w, SlotPart(w, j))) else ms[SlotAddr(w, j)]
  }

  /** Which slots are still live. */
  function LiveSlots(ms: seq<byte>, w: Width): seq<bool> {
    seq(SlotCount(w, |ms|), j requires 0 <= j < SlotCount(w, |ms|) => MatchBits(ms, w, j) > 0)
  }

  /** Slot `j`'s match bits are all ones or all zeros. */
  predicate SlotPacked(ms: seq<byte>, w: Width, j: nat)
    requires j < SlotCount(w, |ms|)
  {
    SlotInRange(w, j, |ms|);
    var a := SlotAddr(w, j);
    if w < 3 then MatchBits(ms, w, j) == 0 || MatchBits(ms, w, j) == GroupMask(w, SlotPart(w, j))
    else
      || (forall k | a <= k < a + BytesPerItem(w) :: ms[k] == 0)
      || (forall k | a <= k < a + BytesPerItem(w) :: ms[k] == 0xFF)
  }

  predicate WellPacked(ms: seq<byte>, w: Width) {
    forall j: nat | j < SlotCount(w, |ms|) :: SlotPacked(ms, w, j)
  }

  /** The bytes the search stores when it drops slot `j`. */
  function ClearedBytes(ms: seq<byte>, w: Width, j: nat): (bytes: seq<byte>)
    requires j < SlotCount(w, |ms|)
    ensures |bytes| == BytesPerItem(w)
  {
    SlotInRange(w, j, |ms|);
    if w < 3 then [And(ms[SlotAddr(w, j)], NotByte(GroupMask(w, SlotPart(w, j))))]
    else seq(BytesPerItem(w), _ => 0)
  }

  function ClearSlot(ms: seq<byte>, w: Width, j: nat): (r: seq<byte>)
    requires j < SlotCount(w, |ms|)
    ensures |r| == |ms|
  {
    SlotInRange(w, j, |ms|);
    Store(ms, SlotAddr(w, j), ClearedBytes(ms, w, j))
  }

  lemma MaskIsOnes(w: Width)
    requires w < 3
    ensures ItemMask(w) == Ones(BitsPerPart(w))
  {
    OnesValues();
  }

  /** Which bits a group mask has. */
  lemma GroupMaskBits(w: Width, part: nat, t: nat)
    requires w < 3 && part < Parts(w)
    ensures BitSet(GroupMask(w, part), t) <==> part * BitsPerPart(w) <= t < part * BitsPerPart(w) + BitsPerPart(w)
  {
    var s := part * BitsPerPart(w);
    ShlBits(ItemMask(w), s, t);
    if t >= s {
      MaskIsOnes(w);
      OnesBits(BitsPerPart(w), t - s);
    }
  }

  lemma GroupsApart(w: Width, p: nat, q: nat, t: nat)
    requires w < 3 && p * BitsPerPart(w) <= t < p * BitsPerPart(w) + BitsPerPart(w)
    requires q * BitsPerPart(w) <= t < q * BitsPerPart(w) + BitsPerPart(w)
    ensures p == q
  {
  }

  lemma ClearedGroupBit(b: byte, w: Width, p: nat, q: nat, t: nat)
    requires w < 3 && p < Parts(w) && q < Parts(w) && t < 8
    ensures BitSet(And(And(b, NotByte(GroupMask(w, p))), GroupMask(w, q)), t)
            <==> p != q && BitSet(And(b, GroupMask(w, q)), t)
  {
    AndBits(And(b, NotByte(GroupMask(w, p))), GroupMask(w, q), t);
    AndBits(b, NotByte(GroupMask(w, p)), t);
    NotByteBits(GroupMask(w, p), t);
    AndBits(b, GroupMask(w, q), t);
    if p != q && BitSet(GroupMask(w, p), t) && BitSet(GroupMask(w, q), t) {
      GroupMaskBits(w, p, t);
      GroupMaskBits(w, q, t);
      GroupsApart(w, p, q, t);
    }
  }

  /** Clearing one group of a byte empties it and leaves the other groups alone. */
  lemma ClearedGroup(b: byte, w: Width, p: nat, q: nat)
    requires w < 3 && p < Parts(w) && q < Parts(w)
    ensures And(And(b, NotByte(GroupMask(w, p))), GroupMask(w, q)) == if p == q then 0 else And(b, GroupMask(w, q))
  {
    var c := And(And(b, NotByte(GroupMask(w, p))), GroupMask(w, q));
    var r := if p == q then 0 else And(b, GroupMask(w, q));
    forall t: nat | t < 8
      ensures BitSet(c, t) == BitSet(r, t)
    {
      ClearedGroupBit(b, w, p, q, t);
      ZeroBits(t);
    }
    EqualBytes(c, r);
  }

  /** Dropping slot `j` changes no other slot's match bits. */
  lemma ClearSlotOther(ms: seq<byte>, w: Width, j: nat, i: nat)
    requires j < SlotCount(w, |ms|) && i < SlotCount(w, |ms|)
    ensures MatchBits(ClearSlot(ms, w, j), w, i) == if i == j then 0 else MatchBits(ms, w, i)
    ensures SlotPacked(ms, w, i) || i == j ==> SlotPacked(ClearSlot(ms, w, j), w, i)
  {
    hide SlotAddr, SlotPart, SlotCount, FirstSlot, Aligned, And, GroupMask, Store;
    SlotInRange(w, j, |ms|);
    SlotInRange(w, i, |ms|);
    var a, b := SlotAddr(w, j), SlotAddr(w, i);
    forall k: nat | k < |ms|
      ensures ClearSlot(ms, w, j)[k]
              == if a <= k < a + BytesPerItem(w) then ClearedBytes(ms, w, j)[k - a] else ms[k]
    {
      StoredByte(ms, a, ClearedBytes(ms, w, j), k);
    }
    if a != b {
      ItemsApart(w, a, b);
    } else if w < 3 {
      ClearedGroup(ms[a], w, SlotPart(w, j), SlotPart(w, i));
    }
  }

  lemma ClearSlotEffect(ms: seq<byte>, w: Width, j: nat)
    requires j < SlotCount(w, |ms|)
    ensures LiveSlots(ClearSlot(ms, w, j), w) == LiveSlots(ms, w)[j := false]
    ensures WellPacked(ms, w) ==> WellPacked(ClearSlot(ms, w, j), w)
  {
    forall i: nat | i < SlotCount(w, |ms|)
      ensures MatchBits(ClearSlot(ms, w, j), w, i) == if i == j then 0 else MatchBits(ms, w, i)
      ensures SlotPacked(ms, w, i) || i == j ==> SlotPacked(ClearSlot(ms, w, j), w, i)
    {
      ClearSlotOther(ms, w, j, i);
    }
  }

  lemma {:induction false} AndCommutes(x: nat, y: nat)
    ensures And(x, y) == And(y, x)
  {
    if x > 0 && y > 0 {
      AndCommutes(x / 2, y / 2);
    }
  }

  /** `memset(matches, 0xFF, total)` makes every slot live and packs it with ones. */
  lemma AllLive(ms: seq<byte>, w: Width)
    requires forall i | 0 <= i < |ms| :: ms[i] == 0xFF
    ensures LiveSlots(ms, w) == seq(SlotCount(w, |ms|), _ => true)
    ensures WellPacked(ms, w)
  {
    forall j: nat | j < SlotCount(w, |ms|)
      ensures MatchBits(ms, w, j) > 0 && SlotPacked(ms, w, j)
    {
      SlotInRange(w, j, |ms|);
      if w < 3 {
        var g := GroupMask(w, SlotPart(w, j));
        OnesValues();
        AndCommutes(0xFF, g);
        AndOnes(g, 8);
        GroupMaskFits(w, SlotPart(w, j));
      }
    }
  }
}
