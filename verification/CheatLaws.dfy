/** What cheats do, in plain arithmetic on the items they address. */
module CheatLaws {
  import opened Words
  import opened Slots
  import opened SearchSession
  import opened Cheats
  import opened PlaceValue
  import opened Wrappers

  /** A cheat takes part exactly when it belongs to the front end (handler 1) and is on. */
  lemma TakesPart(c: Cheat)
    ensures ActiveOnly([c]) == if c.handler == 1 && c.state then [c] else []
  {
    assert [c][1..] == [];
  }

  // ---- conditions ----

  /**
   * A condition with the cheats after it, by the number of its type: 4 runs the next cheat when the item read equals
   * its value, 5 when they differ, 6 when the value is below the item, 7 when it is above. Otherwise that one cheat is
   * dropped, and in no case does the condition change the memory.
   */
  lemma ConditionMeaning(mem: seq<byte>, c: Cheat, next: Cheat, rest: seq<Cheat>, bigEndian: bool)
    requires |mem| < WORD_SIZE && Fits(c, |mem|) && Fits(next, |mem|) && forall d | d in rest :: Fits(d, |mem|)
    ensures forall d | d in [c, next] + rest :: Fits(d, |mem|)
    ensures var item := ItemValue(mem, c.address, c.memorySearchSize, bigEndian);
            var all, kept, dropped := RunCheats(mem, [c, next] + rest, bigEndian),
                                      RunCheats(mem, [next] + rest, bigEndian), RunCheats(mem, rest, bigEndian);
            && (c.cheatType == 4 ==> all == if c.value == item then kept else dropped)
            && (c.cheatType == 5 ==> all == if c.value != item then kept else dropped)
            && (c.cheatType == 6 ==> all == if c.value < item then kept else dropped)
            && (c.cheatType == 7 ==> all == if c.value > item then kept else dropped)
  {
    hide Fits, ItemValue, RunCheats;
    if 4 <= c.cheatType <= 7 {
      ConditionDropsNext(mem, c, next, rest, bigEndian);
    }
  }

  /** A cheat of any other type than 1 to 7 neither writes nor skips. */
  lemma OtherTypesIdle(mem: seq<byte>, c: Cheat, rest: seq<Cheat>, bigEndian: bool)
    requires |mem| < WORD_SIZE && Fits(c, |mem|) && forall d | d in rest :: Fits(d, |mem|)
    requires c.cheatType < 1 || c.cheatType > 7
    ensures forall d | d in [c] + rest :: Fits(d, |mem|)
    ensures RunCheats(mem, [c] + rest, bigEndian) == RunCheats(mem, rest, bigEndian)
  {
    hide Fits, ItemValue;
    assert ([c] + rest)[1..] == rest;
  }

  /** A cheat that writes, type 1 to 3, never skips: the others run on the memory it leaves. */
  lemma WritesThenRuns(mem: seq<byte>, c: Cheat, rest: seq<Cheat>, bigEndian: bool)
    requires |mem| < WORD_SIZE && Fits(c, |mem|) && forall d | d in rest :: Fits(d, |mem|)
    requires 1 <= c.cheatType <= 3
    ensures forall d | d in [c] + rest :: Fits(d, |mem|)
    ensures RunCheats(mem, [c] + rest, bigEndian) == RunCheats(Apply(mem, c, bigEndian), rest, bigEndian)
  {
    hide Fits, ItemValue, Apply;
    assert ([c] + rest)[1..] == rest;
  }

  // ---- writes ----

  lemma CutAgain(x: int, m: nat)
    requires m == 0x100 || m == 0x1_0000 || m == 0x1_0000_0000
    ensures x % 0x1_0000_0000 % m == x % m
  {
    var k := if m == 0x100 then 0x100_0000 else if m == 0x1_0000 then 0x1_0000 else 1;
    var q := x / 0x1_0000_0000;
    assert x == m * (k * q + x % 0x1_0000_0000 / m) + x % 0x1_0000_0000 % m;
    ModUnique(x, m, k * q + x % 0x1_0000_0000 / m, x % 0x1_0000_0000 % m);
  }

  lemma OneWrite(mem: seq<byte>, c: Cheat, bigEndian: bool)
    requires |mem| < WORD_SIZE && Fits(c, |mem|) && 1 <= c.cheatType <= 3 && c.repeatCount == 1
    ensures var item := ItemValue(mem, c.address, c.memorySearchSize, bigEndian);
            var result: int := if c.cheatType == 1 then c.value else if c.cheatType == 2 then item + c.value
                               else item - c.value;
            Apply(mem, c, bigEndian) == WriteOnce(mem, c, c.address, result % 0x1_0000_0000)
  {
    hide ItemValue, WriteOnce;
    var v := ValueToSet(c, ItemValue(mem, c.address, c.memorySearchSize, bigEndian));
    assert Repeat(mem, c, v, 1) == WriteOnce(Repeat(mem, c, v, 0), c, AddressAt(c, |mem|, 0), ValueAt(c, v, 0));
  }

  /**
   * SET, INCREASE and DECREASE of a whole item, done once: the item becomes the value, the item read plus it or less
   * it, cut to the item's width, and no other byte changes. The item is read in the search's byte order and stored in
   * the cheat's.
   */
  lemma WholeItemSet(mem: seq<byte>, c: Cheat, bigEndian: bool, k: nat)
    requires |mem| < WORD_SIZE && Fits(c, |mem|) && 1 <= c.cheatType <= 3 && c.repeatCount == 1
    requires 3 <= c.memorySearchSize && k < |mem|
    ensures var w: Width, r := c.memorySearchSize, Apply(mem, c, bigEndian);
            var item := ItemValue(mem, c.address, w, bigEndian);
            var result: int := if c.cheatType == 1 then c.value else if c.cheatType == 2 then item + c.value
                               else item - c.value;
            && ItemValue(r, c.address, w, c.bigEndian) == result % SlotBase(w)
            && (!(c.address <= k < c.address + BytesPerItem(w)) ==> r[k] == mem[k])
  {
    hide ItemValue, ItemBytes, Store, Apply;
    var w: Width, item := c.memorySearchSize, ItemValue(mem, c.address, c.memorySearchSize, bigEndian);
    var result: int := if c.cheatType == 1 then c.value else if c.cheatType == 2 then item + c.value
                       else item - c.value;
    var v: word := result % 0x1_0000_0000;
    OneWrite(mem, c, bigEndian);
    ReadAfterWrite(mem, c.address, w, c.bigEndian, v);
    StoredByte(mem, c.address, ItemBytes(v, w, c.bigEndian), k);
    CutAgain(result, SlotBase(w));
  }

  /** The same below a byte: the bits under the mask become those of the result on the whole byte, the rest stay. */
  lemma MaskedBitsSet(mem: seq<byte>, c: Cheat, bigEndian: bool, k: nat, t: nat)
    requires |mem| < WORD_SIZE && Fits(c, |mem|) && 1 <= c.cheatType <= 3 && c.repeatCount == 1
    requires c.memorySearchSize < 3 && k < |mem| && t < 8
    ensures var r, was: int := Apply(mem, c, bigEndian), mem[c.address];
            var result: int := if c.cheatType == 1 then c.value else if c.cheatType == 2 then was + c.value
                               else was - c.value;
            && (BitSet(r[c.address], t)
                <==> if BitSet(c.addressMask, t) then BitSet(result % 0x1_0000_0000, t) else BitSet(was, t))
            && (k != c.address ==> r[k] == mem[k])
  {
    hide MergeByte, Store, Apply, BitSet;
    var was: int := mem[c.address];
    var result: int := if c.cheatType == 1 then c.value else if c.cheatType == 2 then was + c.value
                       else was - c.value;
    var v: word := result % 0x1_0000_0000;
    OneWrite(mem, c, bigEndian);
    StoredByte(mem, c.address, [MergeByte(mem[c.address], c.addressMask, v)], k);
    StoredByte(mem, c.address, [MergeByte(mem[c.address], c.addressMask, v)], c.address);
    MergeByteBits(mem[c.address], c.addressMask, v, t);
  }

  /** With a repeat count of zero a cheat changes nothing. */
  lemma NoRepeatNoChange(mem: seq<byte>, c: Cheat, bigEndian: bool)
    requires |mem| < WORD_SIZE && Fits(c, |mem|) && c.repeatCount == 0
    ensures Apply(mem, c, bigEndian) == mem
  {
  }

  // ---- entries ----

  /** The entry made for slot `j`, field by field. */
  lemma MatchCodeFields(idx: word, mem: seq<byte>, w: Width, bigEndian: bool, j: nat)
    requires j < SlotCount(w, |mem|) && |mem| < WORD_SIZE
    ensures SlotAddr(w, j) + BytesPerItem(w) <= |mem|
    ensures var c := MatchCode(idx, mem, w, bigEndian, j);
            && c.idx == idx && c.handler == 1 && c.cheatType == 1 && c.memorySearchSize == w
            && c.value == ItemValue(mem, SlotAddr(w, j), w, bigEndian) && c.address == SlotAddr(w, j)
            && c.addressMask == (if w < 3 then GroupMask(w, SlotPart(w, j)) else 0xFF) && c.bigEndian == bigEndian
            && c.repeatCount == 1 && c.repeatAddToValue == 0 && c.repeatAddToAddress == 1
            && !c.state && c.desc == None && c.code == None
            && c.rumbleType == c.rumbleValue == c.rumblePort == 0
            && c.rumblePrimaryStrength == c.rumblePrimaryDuration == 0
            && c.rumbleSecondaryStrength == c.rumbleSecondaryDuration == 0
  {
    hide ItemValue, GroupMask, SlotAddr, SlotPart, SlotCount;
    SlotInRange(w, j, |mem|);
  }

  /** An entry made by resizing the list, field by field. */
  lemma FreshFields(idx: word, handler: word)
    ensures var c := FreshCheat(idx, handler);
            && c.idx == idx && c.handler == handler && c.cheatType == 1 && c.memorySearchSize == 3
            && c.value == c.address == c.addressMask == 0 && !c.bigEndian
            && c.repeatCount == 1 && c.repeatAddToValue == 0 && c.repeatAddToAddress == 1
            && !c.state && c.desc == None && c.code == None
            && c.rumbleType == c.rumbleValue == c.rumblePort == 0
            && c.rumblePrimaryStrength == c.rumblePrimaryDuration == 0
            && c.rumbleSecondaryStrength == c.rumbleSecondaryDuration == 0
  {
  }

  /**
   * Where slot `j` is: slots of 2^w bits stand one after another from the lowest bit of the first byte on, and the
   * mask VIEW reports covers exactly the slot's bits.
   */
  lemma SlotPlace(w: Width, j: nat, t: nat)
    ensures 8 * SlotAddr(w, j) + SlotPart(w, j) * BitsPerPart(w)
            == j * (if w == 0 then 1 else if w == 1 then 2 else if w == 2 then 4 else if w == 3 then 8
                    else if w == 4 then 16 else 32)
    ensures w < 3 ==> SlotPart(w, j) < Parts(w)
    ensures t < 8 ==> (BitSet(MatchMask(w, j), t)
                       <==> w >= 3 || j * BitsPerPart(w) <= 8 * SlotAddr(w, j) + t < (j + 1) * BitsPerPart(w))
  {
    hide BitSet;
    assert SlotPart(w, j) < Parts(w);
    if w < 3 {
      GroupMaskBits(w, SlotPart(w, j), t);
    } else {
      OnesValues();
      OnesBits(8, t);
    }
  }
}
