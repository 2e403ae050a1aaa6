/** Freezing search matches: what the cheats made of the survivors do to any later memory. */
module Freeze {
  import opened Words
  import opened Slots
  import opened SearchSession
  import opened Cheats

  /** The bits of slot `part` inside its byte. */
  lemma SubValueBits(v: word, w: Width, part: nat, t: nat)
    requires w < 3 && part < Parts(w)
    ensures BitSet(SubValue(v, w, part), t) <==> t < BitsPerPart(w) && BitSet(v, part * BitsPerPart(w) + t)
  {
    var s := part * BitsPerPart(w);
    AndBits(Shr(v, s), ItemMask(w), t);
    ShrBits(v, s, t);
    MaskIsOnes(w);
    OnesBits(BitsPerPart(w), t);
  }

  lemma PartBitsFit(w: Width, part: nat, t: nat)
    requires w < 3 && part < Parts(w) && t < BitsPerPart(w)
    ensures part * BitsPerPart(w) + t < 8
  {
  }

  /** Bit `t` of group `q` lies under the mask of group `p` exactly when the groups are the same. */
  lemma UnderMask(w: Width, p: nat, q: nat, t: nat)
    requires w < 3 && p < Parts(w) && q < Parts(w) && t < BitsPerPart(w)
    ensures BitSet(GroupMask(w, p), q * BitsPerPart(w) + t) <==> p == q
  {
    hide GroupMask;
    var b := q * BitsPerPart(w) + t;
    GroupMaskBits(w, p, b);
    if p * BitsPerPart(w) <= b < p * BitsPerPart(w) + BitsPerPart(w) {
      GroupsApart(w, p, q, b);
    }
  }

  /** Merging through the mask of one slot replaces that slot's value and keeps the others. */
  lemma MergedSubValue(was: byte, v: word, w: Width, p: nat, q: nat)
    requires w < 3 && p < Parts(w) && q < Parts(w)
    ensures SubValue(MergeByte(was, GroupMask(w, p), v), w, q) == SubValue(if p == q then v else was, w, q)
  {
    hide MergeByte, SubValue, GroupMask;
    var merged := MergeByte(was, GroupMask(w, p), v);
    var kept := if p == q then v else was;
    forall t: nat | t < 32
      ensures BitSet(SubValue(merged, w, q), t) == BitSet(SubValue(kept, w, q), t)
    {
      SubValueBits(merged, w, q, t);
      SubValueBits(kept, w, q, t);
      if t < BitsPerPart(w) {
        PartBitsFit(w, q, t);
        MergeByteBits(was, GroupMask(w, p), v, q * BitsPerPart(w) + t);
        UnderMask(w, p, q, t);
      }
    }
    OnesValues();
    EqualByBits(SubValue(merged, w, q), SubValue(kept, w, q), 32);
  }

  /** A store over one item changes no other item's value. */
  lemma OtherItem(mem: seq<byte>, a: nat, b: nat, w: Width, bigEndian: bool, bytes: seq<byte>)
    requires a + BytesPerItem(w) <= |mem| && b + BytesPerItem(w) <= |mem| && |bytes| == BytesPerItem(w)
    requires Aligned(a, w) && Aligned(b, w) && a != b
    ensures ItemValue(Store(mem, a, bytes), b, w, bigEndian) == ItemValue(mem, b, w, bigEndian)
  {
    ItemsApart(w, a, b);
    var stored := Store(mem, a, bytes);
    assert forall k | 0 <= k < |mem| && !(a <= k < a + |bytes|) :: stored[k] == mem[k];
  }

  /** Storing an item's own bytes, taken from another memory, gives it that memory's value. */
  lemma StoredItem(mem: seq<byte>, source: seq<byte>, a: nat, w: Width, bigEndian: bool)
    requires w >= 3 && a + BytesPerItem(w) <= |mem| == |source|
    ensures ItemValue(Store(mem, a, ItemBytes(ItemValue(source, a, w, bigEndian), w, bigEndian)), a, w, bigEndian)
            == ItemValue(source, a, w, bigEndian)
  {
    hide ItemValue, ItemBytes;
    var v := ItemValue(source, a, w, bigEndian);
    ReadAfterWrite(mem, a, w, bigEndian, v);
    ItemBelowMask(source, a, w, bigEndian);
  }

  /** The enabled cheat made of slot `j` fits the memory and writes once, at the slot's item. */
  lemma CodeEffect(cur: seq<byte>, source: seq<byte>, w: Width, bigEndian: bool, j: nat, idx: word, reading: bool)
    requires |source| == |cur| < WORD_SIZE && Aligned(|cur|, w) && j < SlotCount(w, |cur|)
    ensures var c := Enable(MatchCode(idx, source, w, bigEndian, j));
            && IsActive(c) && Fits(c, |cur|) && c.cheatType == SET_TO_VALUE
            && Apply(cur, c, reading) == WriteOnce(cur, c, SlotAddr(w, j), ItemValue(source, SlotAddr(w, j), w,
                bigEndian))
  {
    hide WriteOnce, ItemValue, SlotAddr, MatchMask;
    SlotInRange(w, j, |cur|);
    var c := Enable(MatchCode(idx, source, w, bigEndian, j));
    var v := c.value;
    assert Repeat(cur, c, v, 1) == WriteOnce(Repeat(cur, c, v, 0), c, AddressAt(c, |cur|, 0), ValueAt(c, v, 0));
  }

  lemma ByteItem(mem: seq<byte>, a: nat, w: Width, bigEndian: bool)
    requires w < 3 && a < |mem|
    ensures ItemValue(mem, a, w, bigEndian) == mem[a]
  {
  }

  lemma StoredByte(mem: seq<byte>, a: nat, w: Width, bigEndian: bool, b: byte)
    requires w < 3 && a < |mem|
    ensures ItemValue(Store(mem, a, [b]), a, w, bigEndian) == b
  {
  }

  /**
   * The cheat made of slot `j` on memory `source` sets that slot to its value in `source` and changes no other slot.
   */
  lemma FreezeOne(cur: seq<byte>, source: seq<byte>, w: Width, bigEndian: bool, j: nat, i: nat, idx: word,
      reading: bool)
    requires |source| == |cur| < WORD_SIZE && Aligned(|cur|, w) && j < SlotCount(w, |cur|) && i < SlotCount(w, |cur|)
    ensures var c := Enable(MatchCode(idx, source, w, bigEndian, j));
            Fits(c, |cur|) && SlotValue(Apply(cur, c, reading), w, bigEndian,
                i) == SlotValue(if i == j then source else cur, w, bigEndian, i)
  {
    hide Apply, ItemValue, ItemBytes, Store, SlotAddr, SlotPart, SlotCount, FirstSlot, Aligned, SubValue,
        MergeByte, GroupMask;
    CodeEffect(cur, source, w, bigEndian, j, idx, reading);
    SlotInRange(w, j, |cur|);
    SlotInRange(w, i, |cur|);
    var a, b := SlotAddr(w, j), SlotAddr(w, i);
    var c := Enable(MatchCode(idx, source, w, bigEndian, j));
    if a != b {
      if w < 3 {
        OtherItem(cur, a, b, w, bigEndian, [MergeByte(cur[a], c.addressMask, c.value)]);
      } else {
        OtherItem(cur, a, b, w, bigEndian, ItemBytes(c.value, w, bigEndian));
      }
    } else if w >= 3 {
      StoredItem(cur, source, a, w, bigEndian);
    } else {
      ByteItem(cur, a, w, bigEndian);
      ByteItem(source, a, w, bigEndian);
      StoredByte(cur, a, w, bigEndian, MergeByte(cur[a], c.addressMask, c.value));
      MergedSubValue(cur[a], source[a], w, SlotPart(w, j), SlotPart(w, i));
    }
  }

  /** The enabled cheats made of a list of slots, in list order. */
  function FreezeCodes(source: seq<byte>, w: Width, bigEndian: bool, slots: seq<nat>, start: nat): seq<Cheat>
    requires |source| < WORD_SIZE && forall j | j in slots :: j < SlotCount(w, |source|)
  {
    EnableAll(MatchCodes(start, source, w, bigEndian, slots))
  }

  lemma FreezeCodesStep(source: seq<byte>, w: Width, bigEndian: bool, slots: seq<nat>, start: nat)
    requires |source| < WORD_SIZE && (forall j | j in slots :: j < SlotCount(w, |source|)) && slots != []
    ensures slots[0] in slots && forall j | j in slots[1..] :: j < SlotCount(w, |source|)
    ensures FreezeCodes(source, w, bigEndian, slots, start)
            == [Enable(MatchCode(Wrap(start), source, w, bigEndian, slots[0]))] + FreezeCodes(source, w, bigEndian,
                slots[1..], start + 1)
  {
    hide MatchCode;
    assert forall j | j in slots[1..] :: j in slots;
    var all, rest := MatchCodes(start, source, w, bigEndian, slots), MatchCodes(start + 1, source, w, bigEndian,
        slots[1..]);
    forall k | 0 <= k < |rest|
      ensures rest[k] == all[k + 1]
    {
      assert slots[1..][k] == slots[k + 1] && start + (k + 1) == start + 1 + k;
    }
  }

  lemma {:induction false} FreezeCodesFit(source: seq<byte>, w: Width, bigEndian: bool, slots: seq<nat>, start: nat)
    requires |source| < WORD_SIZE && Aligned(|source|, w) && forall j | j in slots :: j < SlotCount(w, |source|)
    ensures forall c | c in FreezeCodes(source, w, bigEndian, slots, start) :: IsActive(c) && Fits(c, |source|)
  {
    hide MatchCode, Fits;
    if slots != [] {
      FreezeCodesStep(source, w, bigEndian, slots, start);
      CodeEffect(source, source, w, bigEndian, slots[0], Wrap(start), false);
      FreezeCodesFit(source, w, bigEndian, slots[1..], start + 1);
    }
  }

  /** A SET cheat at the head of a list acts once and never skips. */
  lemma RunSet(mem: seq<byte>, c: Cheat, rest: seq<Cheat>, reading: bool)
    requires |mem| < WORD_SIZE && Fits(c, |mem|) && c.cheatType == SET_TO_VALUE && forall d | d in rest :: Fits(d,
        |mem|)
    ensures forall d | d in [c] + rest :: Fits(d, |mem|)
    ensures RunCheats(mem, [c] + rest, reading) == RunCheats(Apply(mem, c, reading), rest, reading)
  {
    hide Apply, Fits, ItemValue;
    assert ([c] + rest)[1..] == rest;
  }

  lemma NoCodes(source: seq<byte>, w: Width, bigEndian: bool, start: nat)
    requires |source| < WORD_SIZE
    ensures FreezeCodes(source, w, bigEndian, [], start) == []
  {
  }

  lemma InTail(s: seq<nat>, i: nat)
    requires s != []
    ensures i in s <==> i == s[0] || i in s[1..]
  {
    assert s == [s[0]] + s[1..];
  }

  /**
   * Running the cheats made of `slots` on memory `source` over any memory `cur` gives `source`'s value in those slots
   * and `cur`'s in all others.
   */
  lemma {:induction false} FreezeSlots(cur: seq<byte>, source: seq<byte>, w: Width, bigEndian: bool,
      slots: seq<nat>, start: nat,
                                       i: nat, reading: bool)
    requires |source| == |cur| < WORD_SIZE && Aligned(|cur|, w) && i < SlotCount(w, |cur|)
    requires forall j | j in slots :: j < SlotCount(w, |cur|)
    ensures forall c | c in FreezeCodes(source, w, bigEndian, slots, start) :: Fits(c, |cur|)
    ensures SlotValue(RunCheats(cur, FreezeCodes(source, w, bigEndian, slots, start), reading), w, bigEndian, i)
            == SlotValue(if i in slots then source else cur, w, bigEndian, i)
    decreases |slots|
  {
    hide SlotValue, SlotCount, Apply, Fits, ItemValue, Aligned, FreezeCodes, RunCheats;
    FreezeCodesFit(source, w, bigEndian, slots, start);
    if slots == [] {
      NoCodes(source, w, bigEndian, start);
      RunNone(cur, reading);
    } else {
      FreezeCodesStep(source, w, bigEndian, slots, start);
      var c := Enable(MatchCode(Wrap(start), source, w, bigEndian, slots[0]));
      var rest := FreezeCodes(source, w, bigEndian, slots[1..], start + 1);
      CodeEffect(cur, source, w, bigEndian, slots[0], Wrap(start), reading);
      FreezeCodesFit(source, w, bigEndian, slots[1..], start + 1);
      RunSet(cur, c, rest, reading);
      FreezeOne(cur, source, w, bigEndian, slots[0], i, Wrap(start), reading);
      FreezeSlots(Apply(cur, c, reading), source, w, bigEndian, slots[1..], start + 1, i, reading);
      InTail(slots, i);
    }
  }

  /**
   * Freeze: take the cheats made of the live slots on memory `source`, appended to a list with no active cheat, and
   * enable them.
   * Applied to any later memory they give `source`'s value in every live slot and leave every other slot alone.
   */
  lemma FreezeMatches(earlier: seq<Cheat>, source: seq<byte>, later: seq<byte>, w: Width, bigEndian: bool,
      live: seq<bool>,
                      i: nat, reading: bool)
    requires |source| == |later| < WORD_SIZE && Aligned(|source|, w) && |live| == SlotCount(w, |source|) && i < |live|
    requires forall c | c in earlier :: !IsActive(c)
    ensures var cs := ActiveOnly(earlier + EnableAll(MatchCodes(|earlier|, source, w, bigEndian, Survivors(live))));
            && (forall c | c in cs :: Fits(c, |later|))
            && SlotValue(RunCheats(later, cs, reading), w, bigEndian, i)
               == SlotValue(if live[i] then source else later, w, bigEndian, i)
  {
    hide SlotValue, MatchCodes, EnableAll, Survivors;
    var slots := Survivors(live);
    var codes := FreezeCodes(source, w, bigEndian, slots, |earlier|);
    FreezeCodesFit(source, w, bigEndian, slots, |earlier|);
    ActiveAppend(earlier, codes);
    AllActive(earlier);
    AllActive(codes);
    assert ActiveOnly(earlier + codes) == codes;
    SurvivorsBijection(live);
    FreezeSlots(later, source, w, bigEndian, slots, |earlier|, i, reading);
  }

  // ---- the slots make up the whole memory ----

  /** A wide slot's value is its item's. */
  lemma WideSlot(v: word, w: Width)
    requires w >= 3 && v <= ItemMask(w)
    ensures SubValue(v, w, 0) == v
  {
    hide And, Ones;
    OnesValues();
    AndOnes(v, if w == 3 then 8 else if w == 4 then 16 else 32);
    assert Shr(v, 0) == v;
  }

  /** Bytes with equal slot values are equal. */
  lemma ByteBySlots(x: byte, y: byte, w: Width)
    requires w < 3 && forall part: nat | part < Parts(w) :: SubValue(x, w, part) == SubValue(y, w, part)
    ensures x == y
  {
    hide SubValue, BitSet;
    forall t: nat | t < 8
      ensures BitSet(x, t) == BitSet(y, t)
    {
      var part, k := t / BitsPerPart(w), t % BitsPerPart(w);
      assert part < Parts(w) && part * BitsPerPart(w) + k == t;
      assert SubValue(x, w, part) == SubValue(y, w, part);
      SubValueBits(x, w, part, k);
      SubValueBits(y, w, part, k);
    }
    EqualBytes(x, y);
  }

  /** Two memories whose items at `a` agree in every slot agree in every byte of the item. */
  lemma ItemBySlots(m: seq<byte>, n: seq<byte>, w: Width, bigEndian: bool, a: nat)
    requires |m| == |n| && a + BytesPerItem(w) <= |m| && Aligned(a, w)
    requires forall j: nat | j < SlotCount(w, |m|) :: SlotValue(m, w, bigEndian, j) == SlotValue(n, w, bigEndian, j)
    ensures m[a..a + BytesPerItem(w)] == n[a..a + BytesPerItem(w)]
  {
    hide ItemValue, ItemBytes, SubValue, SlotAddr, SlotPart, SlotCount, FirstSlot, Aligned;
    var x, y := ItemValue(m, a, w, bigEndian), ItemValue(n, a, w, bigEndian);
    forall part: nat | part < Parts(w)
      ensures SubValue(x, w, part) == SubValue(y, w, part)
    {
      SlotOfItem(w, a, part);
      assert SlotValue(m, w, bigEndian, FirstSlot(w, a) + part) == SlotValue(n, w, bigEndian, FirstSlot(w, a) + part);
    }
    if w < 3 {
      ByteItem(m, a, w, bigEndian);
      ByteItem(n, a, w, bigEndian);
      ByteBySlots(m[a], n[a], w);
    } else {
      assert SubValue(x, w, 0) == SubValue(y, w, 0);
      ItemBelowMask(m, a, w, bigEndian);
      ItemBelowMask(n, a, w, bigEndian);
      WideSlot(x, w);
      WideSlot(y, w);
      WriteAfterRead(m, a, w, bigEndian);
      WriteAfterRead(n, a, w, bigEndian);
    }
  }

  lemma ItemHolding(k: nat, total: nat, w: Width) returns (a: nat)
    requires k < total && Aligned(total, w)
    ensures Aligned(a, w) && a <= k < a + BytesPerItem(w) <= total
  {
    a := if w == 5 then k / 4 * 4 else if w == 4 then k / 2 * 2 else k;
    assert Aligned(a, w);
    ItemBefore(a, total, w);
  }

  /** The slots cover the memory: two memories with the same slot values are the same. */
  lemma SlotsCoverMemory(m: seq<byte>, n: seq<byte>, w: Width, bigEndian: bool)
    requires |m| == |n| && Aligned(|m|, w)
    requires forall j: nat | j < SlotCount(w, |m|) :: SlotValue(m, w, bigEndian, j) == SlotValue(n, w, bigEndian, j)
    ensures m == n
  {
    forall k | 0 <= k < |m|
      ensures m[k] == n[k]
    {
      hide SlotValue, SlotCount;
      var a := ItemHolding(k, |m|, w);
      ItemBySlots(m, n, w, bigEndian, a);
      assert m[a..a + BytesPerItem(w)][k - a] == n[a..a + BytesPerItem(w)][k - a];
    }
  }
}
