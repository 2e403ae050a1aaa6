/** The cheat manager: memory segments, the packed match array, and the operations that change them. */
module CheatEngine {
  import opened Words
  import opened Slots
  import opened SearchSession
  import opened Segments
  import opened Cheats
  import opened Wrappers
  import opened Numerals
  import opened PlaceValue
  import CheatFile

  /** A memory-map descriptor as `cheat_manager_initialize_memory` sees it. */
  datatype Descriptor = Descriptor(isSystemRam: bool, data: array?<byte>)

  datatype MatchActionType = View | DeleteMatch | Copy | Browse

  /** What the out-parameters of `cheat_manager_match_action` are set to, if they are. */
  datatype MatchReport = NoReport | Viewed(address: nat, addressMask: word, prevValue: word,
      currValue: word) | Browsed(prevValue: word, currValue: word)

  /** The bytes held by a list of segments. */
  ghost function Contents(segs: seq<array<byte>>): (c: seq<seq<byte>>)
    reads segs
    ensures |c| == |segs|
    ensures forall i | 0 <= i < |segs| :: c[i] == segs[i][..]
  {
    if segs == [] then [] else Contents(segs[..|segs| - 1]) + [segs[|segs| - 1][..]]
  }

  predicate Distinct(segs: seq<array<byte>>) {
    forall i, k | 0 <= i < k < |segs| :: segs[i] != segs[k]
  }

  /** Every segment holds a whole number of items of width `w`. */
  predicate WholeSegments(segs: seq<array<byte>>, w: Width) {
    forall i | 0 <= i < |segs| :: Aligned(segs[i].Length, w)
  }

  /** The segments a list of descriptors provides. */
  function RamSegments(descriptors: seq<Descriptor>): seq<array<byte>> {
    if descriptors == [] then []
    else
      var d := descriptors[|descriptors| - 1];
      RamSegments(descriptors[..|descriptors| - 1]) + (if d.isSystemRam && d.data != null
          && d.data.Length > 0 then [d.data] else [])
  }

  lemma RamSegmentsStep(descriptors: seq<Descriptor>, i: nat)
    requires i < |descriptors|
    ensures var d := descriptors[i];
            RamSegments(descriptors[..i + 1])
            == RamSegments(descriptors[..i]) + (if d.isSystemRam && d.data != null
                && d.data.Length > 0 then [d.data] else [])
  {
    assert descriptors[..i + 1][..i] == descriptors[..i];
  }

  lemma FlatNone()
    ensures Flat([]) == []
  {
  }

  /** The bytes a list of segments has in all. */
  function TotalLength(segs: seq<array<byte>>): nat {
    if segs == [] then 0 else TotalLength(segs[..|segs| - 1]) + segs[|segs| - 1].Length
  }

  lemma {:induction false} FlatLength(segs: seq<array<byte>>)
    ensures |Flat(Contents(segs))| == TotalLength(segs)
  {
    if segs != [] {
      var front := segs[..|segs| - 1];
      FlatLength(front);
      assert Contents(segs)[..|segs| - 1] == Contents(front);
    }
  }

  lemma NoMemory()
    ensures Flat(Contents([])) == []
  {
  }

  /** The segments an initialisation ends up with: the descriptors' RAM, else the core's single RAM block, else none. */
  function FoundSegments(descriptors: seq<Descriptor>, systemRam: array?<byte>): seq<array<byte>> {
    if RamSegments(descriptors) != [] then RamSegments(descriptors)
    else if systemRam != null && systemRam.Length > 0 then [systemRam]
    else []
  }

  lemma {:induction false} RamFrom(descriptors: seq<Descriptor>)
    ensures forall a | a in RamSegments(descriptors) :: exists i | 0 <= i < |descriptors| :: descriptors[i].data == a
  {
    if descriptors != [] {
      var n := |descriptors| - 1;
      RamFrom(descriptors[..n]);
      forall a | a in RamSegments(descriptors)
        ensures exists i | 0 <= i < |descriptors| :: descriptors[i].data == a
      {
        if a in RamSegments(descriptors[..n]) {
          var i :| 0 <= i < n && descriptors[..n][i].data == a;
          assert descriptors[i].data == a;
        } else {
          assert descriptors[n].data == a;
        }
      }
    }
  }

  predicate HasRam(d: Descriptor) {
    d.isSystemRam && d.data != null && d.data.Length > 0
  }

  /** The segments are the data of exactly the descriptors that have RAM, at the increasing places `at`. */
  ghost predicate TakenAt(descriptors: seq<Descriptor>, segs: seq<array<byte>>, at: seq<nat>) {
    && |at| == |segs|
    && (forall k | 0 <= k < |at| ::
          at[k] < |descriptors| && HasRam(descriptors[at[k]]) && descriptors[at[k]].data == segs[k])
    && (forall i, k | 0 <= i < k < |at| :: at[i] < at[k])
    && forall i: nat | i < |descriptors| && HasRam(descriptors[i]) :: i in at
  }

  lemma TakenMore(descriptors: seq<Descriptor>, segs: seq<array<byte>>, at: seq<nat>, d: Descriptor)
    requires TakenAt(descriptors, segs, at)
    ensures !HasRam(d) ==> TakenAt(descriptors + [d], segs, at)
    ensures HasRam(d) ==> TakenAt(descriptors + [d], segs + [d.data], at + [|descriptors|])
  {
    hide HasRam;
    var longer, n := at + [|descriptors|], |descriptors|;
    assert longer[|at|] == n && forall k | 0 <= k < |at| :: longer[k] == at[k];
  }

  lemma {:induction false} RamPlaces(descriptors: seq<Descriptor>) returns (at: seq<nat>)
    ensures TakenAt(descriptors, RamSegments(descriptors), at)
  {
    at := [];
    if descriptors != [] {
      hide TakenAt;
      var n := |descriptors| - 1;
      at := RamPlaces(descriptors[..n]);
      assert descriptors == descriptors[..n] + [descriptors[n]];
      TakenMore(descriptors[..n], RamSegments(descriptors[..n]), at, descriptors[n]);
      if HasRam(descriptors[n]) {
        at := at + [n];
      }
    }
  }

  lemma TakenSome(descriptors: seq<Descriptor>, segs: seq<array<byte>>, at: seq<nat>)
    requires TakenAt(descriptors, segs, at)
    ensures segs != [] <==> exists d :: d in descriptors && HasRam(d)
  {
    hide HasRam;
    if d :| d in descriptors && HasRam(d) {
      var i: nat :| i < |descriptors| && descriptors[i] == d;
      assert i in at;
    }
    if segs != [] {
      assert HasRam(descriptors[at[0]]) && descriptors[at[0]] in descriptors;
    }
  }

  lemma FlatOfOne(data: array<byte>)
    ensures Flat(Contents([data])) == data[..]
  {
    FlatNone();
    assert [data][..0] == [] && Contents([data])[..0] == [];
  }

  /**
   * What is found, by what the descriptors hold: with none that is RAM and has bytes, the core's own block if it has
   * bytes; else the data of exactly those, in the order of the descriptors, and not the core's block.
   */
  lemma FoundExact(descriptors: seq<Descriptor>, systemRam: array?<byte>)
    ensures (forall d | d in descriptors :: !HasRam(d)) ==>
              FoundSegments(descriptors, systemRam)
              == if systemRam != null && systemRam.Length > 0 then [systemRam] else []
    ensures (exists d :: d in descriptors && HasRam(d)) ==>
              && FoundSegments(descriptors, systemRam) != []
              && exists at :: TakenAt(descriptors, FoundSegments(descriptors, systemRam), at)
  {
    hide RamSegments, HasRam, TakenAt;
    var at := RamPlaces(descriptors);
    TakenSome(descriptors, RamSegments(descriptors), at);
  }

  /** Every segment found is a descriptor's or the core's block. */
  lemma FoundFrom(descriptors: seq<Descriptor>, systemRam: array?<byte>)
    ensures forall a | a in FoundSegments(descriptors, systemRam) ::
              a == systemRam || exists i | 0 <= i < |descriptors| :: descriptors[i].data == a
  {
    RamFrom(descriptors);
  }

  /** Slots below `j` already hold the search's verdict, the others their old state. */
  ghost predicate Narrowed(ms: seq<byte>, w: Width, j: nat, before: seq<bool>, after: seq<bool>) {
    && |before| == |after| == SlotCount(w, |ms|)
    && j <= |before|
    && LiveSlots(ms, w) == after[..j] + before[j..]
  }

  /** One slot of the scan: keep it when the verdict is unchanged, clear it otherwise. */
  lemma NarrowSlot(ms: seq<byte>, w: Width, j: nat, before: seq<bool>, after: seq<bool>)
    requires Narrowed(ms, w, j, before, after) && j < |before| && (after[j] ==> before[j])
    ensures MatchBits(ms, w, j) > 0 <==> before[j]
    ensures before[j] == after[j] ==> Narrowed(ms, w, j + 1, before, after)
    ensures before[j] != after[j] ==> Narrowed(ClearSlot(ms, w, j), w, j + 1, before, after)
    ensures before[j] ==> |Survivors(LiveSlots(ClearSlot(ms, w, j), w))| == |Survivors(LiveSlots(ms, w))| - 1
    ensures WellPacked(ms, w) ==> WellPacked(ClearSlot(ms, w, j), w)
  {
    hide MatchBits, ClearSlot, SlotPacked, Survivors;
    var live := LiveSlots(ms, w);
    assert live[j] == before[j];
    ClearSlotEffect(ms, w, j);
    if before[j] {
      DropOne(live, j);
    }
  }

  /** Clearing at the end of the scan: a decrement for every slot dropped so far. */
  lemma CountDownStep(numMatches: word, n: nat)
    ensures CountDown(CountDown(numMatches, n), 1) == CountDown(numMatches, n + 1)
  {
  }

  /** A write at a segment's own offset is that write on the flat memory. */
  lemma WriteOnceFlat(contents: seq<seq<byte>>, seg: nat, idx: nat, c: Cheat, v: word)
    requires c.memorySearchSize <= 5 && seg < |contents| && Offset(contents, seg) <= idx
    requires idx - Offset(contents, seg) + BytesPerItem(c.memorySearchSize) <= |contents[seg]|
    ensures idx + BytesPerItem(c.memorySearchSize) <= |Flat(contents)|
    ensures Flat(contents[seg := WriteOnce(contents[seg], c, idx - Offset(contents, seg),
        v)]) == WriteOnce(Flat(contents), c, idx, v)
  {
    hide Store, ItemBytes, MergeByte, Flat;
    FlatAt(contents, seg);
    var off := Offset(contents, seg);
    var at := idx - off;
    if c.memorySearchSize < 3 {
      assert contents[seg][at] == Flat(contents)[off..off + |contents[seg]|][at] == Flat(contents)[idx];
      FlatStore(contents, seg, at, [MergeByte(contents[seg][at], c.addressMask, v)]);
    } else {
      FlatStore(contents, seg, at, ItemBytes(v, c.memorySearchSize, c.bigEndian));
    }
  }

  /** What one write leaves in the bytes, as numbers and bits. */
  lemma WrittenBytes(mem: seq<byte>, c: Cheat, idx: nat, v: word)
    requires c.memorySearchSize <= 5 && idx + BytesPerItem(c.memorySearchSize) <= |mem|
    ensures var r, n := WriteOnce(mem, c, idx, v), BytesPerItem(c.memorySearchSize);
            && (forall k: nat | k < |mem| && !(idx <= k < idx + n) :: r[k] == mem[k])
            && (c.memorySearchSize >= 3 ==>
                  Number(LowestFirst(r[idx..idx + n], c.bigEndian))
                  == if c.memorySearchSize == 5 then v else if c.memorySearchSize == 4 then v % 0x1_0000
                     else v % 0x100)
            && (c.memorySearchSize < 3 ==>
                  forall t: nat | t < 8 ::
                    BitSet(r[idx], t) == if BitSet(c.addressMask, t) then BitSet(v, t) else BitSet(mem[idx], t))
  {
    hide Number, LowestFirst, BitSet, MergeByte, ItemBytes;
    if c.memorySearchSize >= 3 {
      var bytes := ItemBytes(v, c.memorySearchSize, c.bigEndian);
      assert Store(mem, idx, bytes)[idx..idx + |bytes|] == bytes;
      BytesNumber(v, c.memorySearchSize, c.bigEndian);
    } else {
      forall t: nat | t < 8
        ensures BitSet(MergeByte(mem[idx], c.addressMask, v), t)
                == if BitSet(c.addressMask, t) then BitSet(v, t) else BitSet(mem[idx], t)
      {
        MergeByteBits(mem[idx], c.addressMask, v, t);
      }
    }
  }

  /** The verdict of the search on a live slot, from the two item values read. */
  lemma SlotVerdict(search: Search, w: Width, prev: seq<byte>, before: seq<bool>, a: nat, part: nat)
    requires |search.memory| == |prev| && |before| == SlotCount(w, |prev|)
    requires Aligned(a, w) && a + BytesPerItem(w) <= |prev| && part < Parts(w)
    ensures FirstSlot(w, a) + part < |before|
    ensures var j := FirstSlot(w, a) + part;
            Filter(search, w, prev, before)[j]
            <==> before[j] && Matches(search, SubValue(ItemValue(search.memory, a, w, search.bigEndian), w, part),
                                              SubValue(ItemValue(prev, a, w, search.bigEndian), w, part))
  {
    hide SlotAddr, SlotPart, SlotCount, FirstSlot, Aligned, SubValue, ItemValue, Matches;
    SlotOfItem(w, a, part);
  }

  /** The slots of a scan's prefix are slots of the memory. */
  lemma PrefixSlots(live: seq<bool>, j: nat)
    requires j <= |live|
    ensures forall i | i in Survivors(live[..j]) :: i < |live|
  {
  }

  /** One more match makes one more code. */
  lemma MatchCodesStep(start: nat, mem: seq<byte>, w: Width, bigEndian: bool, slots: seq<nat>, j: nat)
    requires |mem| < WORD_SIZE && j < SlotCount(w, |mem|) && forall i | i in slots :: i < SlotCount(w, |mem|)
    ensures forall i | i in slots + [j] :: i < SlotCount(w, |mem|)
    ensures MatchCodes(start, mem, w, bigEndian, slots + [j])
            == MatchCodes(start, mem, w, bigEndian, slots) + [MatchCode(Wrap(start + |slots|), mem, w, bigEndian, j)]
  {
    hide MatchCode, SlotCount;
  }

  lemma CodesByIndex(start: nat, mem: seq<byte>, w: Width, bigEndian: bool, slots: seq<nat>)
    requires |mem| < WORD_SIZE && forall i | i in slots :: i < SlotCount(w, |mem|)
    ensures forall k | 0 <= k < |slots| ::
              slots[k] in slots
              && MatchCodes(start, mem, w, bigEndian, slots)[k]
                 == MatchCode(Wrap(start + k), mem, w, bigEndian, slots[k])
  {
    hide MatchCode, SlotCount;
  }

  /** A scan's count at slot `j`: a live slot there is the survivor with that index. */
  lemma CountStep(live: seq<bool>, j: nat)
    requires j < |live|
    ensures var count := |Survivors(live[..j])|;
            && |Survivors(live[..j + 1])| == (if live[j] then count + 1 else count)
            && (live[j] ==> count < |Survivors(live)| && Survivors(live)[count] == j)
  {
    SurvivorPrefix(live, j);
    SurvivorStep(live, j);
  }

  lemma NoSurvivors()
    ensures Survivors([]) == []
  {
  }

  lemma LiveCount(ms: seq<byte>, w: Width)
    ensures |LiveSlots(ms, w)| == SlotCount(w, |ms|)
  {
  }

  lemma ScanStart(w: Width, total: nat)
    requires Aligned(total, w)
    ensures Aligned(0, w) && FirstSlot(w, 0) == 0 && FirstSlot(w, total) == SlotCount(w, total)
  {
  }

  /** The scan steps from item to item and ends at the end of the memory. */
  lemma ScanStep(w: Width, idx: nat, total: nat)
    requires Aligned(idx, w) && Aligned(total, w) && idx < total
    ensures Aligned(idx + BytesPerItem(w), w) && idx + BytesPerItem(w) <= total
    ensures FirstSlot(w, idx + BytesPerItem(w)) == FirstSlot(w, idx) + Parts(w)
  {
  }

  lemma NoMatchCodes(start: nat, mem: seq<byte>, w: Width, bigEndian: bool)
    requires |mem| < WORD_SIZE
    ensures MatchCodes(start, mem, w, bigEndian, []) == []
  {
  }

  /** The stepping in the repeat loop is the step of the specification. */
  lemma NextIsStep(c: Cheat, idx: nat, v: word, total: nat)
    requires 3 <= c.memorySearchSize <= 5 && total > 0
    ensures NextValue(c, v) == (v + c.repeatAddToValue) % WORD_SIZE % ItemMask(c.memorySearchSize)
    ensures NextAddress(c, idx, total)
            == (idx + c.repeatAddToAddress * BytesPerItem(c.memorySearchSize) % WORD_SIZE) % WORD_SIZE % total
  {
  }

  /** The active cheats still to come, without the one a failed condition drops. */
  function Pending(runCheat: bool, cs: seq<Cheat>): seq<Cheat> {
    if runCheat || cs == [] then cs else cs[1..]
  }

  lemma NoActive()
    ensures ActiveOnly([]) == []
  {
  }

  lemma ActiveStep(cs: seq<Cheat>, i: nat)
    requires i < |cs|
    ensures IsActive(cs[i]) ==> ActiveOnly(cs[i..]) == [cs[i]] + ActiveOnly(cs[i + 1..])
    ensures IsActive(cs[i]) ==> ActiveOnly(cs[i..])[1..] == ActiveOnly(cs[i + 1..])
    ensures !IsActive(cs[i]) ==> ActiveOnly(cs[i..]) == ActiveOnly(cs[i + 1..])
    ensures forall c | c in ActiveOnly(cs[i + 1..]) :: c in ActiveOnly(cs[i..])
  {
    assert cs[i..][1..] == cs[i + 1..];
  }

  /** Running a list whose head is `c`: act, then go on with what is pending. */
  lemma RunStep(mem: seq<byte>, c: Cheat, rest: seq<Cheat>, bigEndian: bool)
    requires |mem| < WORD_SIZE && Fits(c, |mem|) && forall d | d in rest :: Fits(d, |mem|)
    ensures forall d | d in [c] + rest :: Fits(d, |mem|)
    ensures var skip := SkipsNext(c, ItemValue(mem, c.address, c.memorySearchSize, bigEndian));
            RunCheats(mem, [c] + rest, bigEndian) == RunCheats(Apply(mem, c, bigEndian), Pending(!skip, rest),
                bigEndian)
  {
    hide Apply, Fits, ItemValue, SkipsNext;
    var cs := [c] + rest;
    assert cs[1..] == rest;
    if rest != [] {
      assert cs[2..] == rest[1..];
    }
  }

  /** Every active cheat fits a memory of `total` bytes made of the segments `segs`. */
  ghost predicate ActiveFit(cheats: seq<Cheat>, segs: seq<array<byte>>, total: nat) {
    forall c | c in cheats && IsActive(c) :: Fits(c, total) && WholeSegments(segs, c.memorySearchSize)
  }

  // ---- item access on arrays ----

  /** The read that the engine repeats at every item. */
  method LoadItem(curr: array<byte>, at: nat, w: Width, bigEndian: bool) returns (v: word)
    requires at + BytesPerItem(w) <= curr.Length
    ensures v == ItemValue(curr[..], at, w, bigEndian)
  {
    var b0: nat := curr[at];
    if BytesPerItem(w) == 2 {
      var b1: nat := curr[at + 1];
      v := if bigEndian then b0 * 256 + b1 else b0 + b1 * 256;
    } else if BytesPerItem(w) == 4 {
      var b1: nat, b2: nat, b3: nat := curr[at + 1], curr[at + 2], curr[at + 3];
      v := if bigEndian then b0 * 256 * 256 * 256 + b1 * 256 * 256 + b2 * 256 + b3
           else b0 + b1 * 256 + b2 * 256 * 256 + b3 * 256 * 256 * 256;
    } else {
      v := b0;
    }
  }

  lemma LowBit(x: nat)
    ensures And(x, 1) == x % 2
  {
    OnesValues();
    AndIsMod(x, 1);
  }

  lemma OneBit(n: nat)
    requires n < 8
    ensures 0 < Shl(1, n) <= 0x80
  {
    assert Shl(1, 1) == 2 && Shl(1, 2) == 4 && Shl(1, 3) == 8;
    assert Shl(1, 4) == 16 && Shl(1, 5) == 32 && Shl(1, 6) == 64 && Shl(1, 7) == 128;
  }

  lemma {:induction false} ShlZero(n: nat)
    ensures Shl(0, n) == 0
  {
    if n > 0 {
      ShlZero(n - 1);
    }
  }

  lemma {:induction false} ShlBit(bit: nat, n: nat)
    requires bit < 2 && n < 8
    ensures Shl(bit, n) <= 0x80
  {
    if bit == 1 {
      OneBit(n);
    } else {
      ShlZero(n);
    }
  }

  lemma OneBitAt(bit: nat, n: nat, t: nat)
    requires bit < 2
    ensures BitSet(Shl(bit, n), t) <==> t == n && bit == 1
  {
    ShlBits(bit, n, t);
    if t > n {
      ZeroBits(t - n - 1);
    }
  }

  /** `val & ~(1 << bitpos) & 0xFF`, then `| ((v >> bitpos) & 1) << bitpos`. */
  method SetBit(val: byte, bitpos: nat, v: word, ghost was: byte, ghost addressMask: word) returns (r: byte)
    requires bitpos < 8 && And(Shr(addressMask, bitpos), 0x01) != 0
    requires forall t: nat | t < 8 ::
               BitSet(val, t) == if t < bitpos && BitSet(addressMask, t) then BitSet(v, t) else BitSet(was, t)
    ensures forall t: nat | t < 8 ::
              BitSet(r, t) == if t < bitpos + 1 && BitSet(addressMask, t) then BitSet(v, t) else BitSet(was, t)
  {
    OneBit(bitpos);
    LowBit(Shr(addressMask, bitpos));
    LowBit(Shr(v, bitpos));
    var bit := And(Shr(v, bitpos), 0x01);
    ShlBit(bit, bitpos);
    var one: byte := Shl(1, bitpos);
    var cleared: byte := And(val, NotByte(one));
    OnesValues();
    OrBound(cleared, Shl(bit, bitpos), 8);
    r := Or(cleared, Shl(bit, bitpos));
    forall t: nat | t < 8
      ensures BitSet(r, t) == if t < bitpos + 1 && BitSet(addressMask, t) then BitSet(v, t) else BitSet(was, t)
    {
      OrBits(cleared, Shl(bit, bitpos), t);
      AndBits(val, NotByte(one), t);
      NotByteBits(one, t);
      OneBitAt(1, bitpos, t);
      OneBitAt(bit, bitpos, t);
    }
  }

  /**
   * The bit loop of a sub-byte write: for every one in `addressMask`, clear the bit of `was` and inject the bit of
   * `v`.
   */
  method MergeBits(was: byte, addressMask: word, v: word) returns (val: byte)
    ensures val == MergeByte(was, addressMask, v)
  {
    hide MergeByte;
    val := was;
    var bitpos := 0;
    while bitpos < 8
      invariant bitpos <= 8
      invariant forall t: nat | t < 8 ::
                  BitSet(val, t) == if t < bitpos && BitSet(addressMask, t) then BitSet(v, t) else BitSet(was, t)
    {
      if And(Shr(addressMask, bitpos), 0x01) != 0 {
        val := SetBit(val, bitpos, v, was, addressMask);
      } else {
        LowBit(Shr(addressMask, bitpos));
      }
      bitpos := bitpos + 1;
    }
    forall t: nat | t < 8
      ensures BitSet(val, t) == BitSet(MergeByte(was, addressMask, v), t)
    {
      MergeByteBits(was, addressMask, v, t);
    }
    EqualBytes(val, MergeByte(was, addressMask, v));
  }

  /** The bytes a shift and mask cut out of a word are its base-256 digits. */
  lemma ShiftedBytes(v: word)
    ensures And(v, 0xFF) == v % 0x100 && And(Shr(v, 8), 0xFF) == v / 0x100 % 0x100
    ensures And(Shr(v, 16), 0xFF) == v / 0x1_0000 % 0x100 && And(Shr(v, 24), 0xFF) == v / 0x100_0000
  {
    hide And, Shr;
    LowByte(v);
    LowByte(Shr(v, 8));
    LowByte(Shr(v, 16));
    LowByte(Shr(v, 24));
    ShrBytes(v);
  }

  /** The two-byte write. */
  method StoreTwo(curr: array<byte>, at: nat, bigEndian: bool, v: word)
    requires at + 2 <= curr.Length
    modifies curr
    ensures curr[..] == Store(old(curr[..]), at, ItemBytes(v, 4, bigEndian))
  {
    hide And, Shr;
    ShiftedBytes(v);
    if bigEndian {
      curr[at] := And(Shr(v, 8), 0xFF);
      curr[at + 1] := And(v, 0xFF);
    } else {
      curr[at] := And(v, 0xFF);
      curr[at + 1] := And(Shr(v, 8), 0xFF);
    }
  }

  /** The four-byte write. */
  method StoreFour(curr: array<byte>, at: nat, bigEndian: bool, v: word)
    requires at + 4 <= curr.Length
    modifies curr
    ensures curr[..] == Store(old(curr[..]), at, ItemBytes(v, 5, bigEndian))
  {
    hide And, Shr;
    ShiftedBytes(v);
    if bigEndian {
      curr[at] := And(Shr(v, 24), 0xFF);
      curr[at + 1] := And(Shr(v, 16), 0xFF);
      curr[at + 2] := And(Shr(v, 8), 0xFF);
      curr[at + 3] := And(v, 0xFF);
    } else {
      curr[at] := And(v, 0xFF);
      curr[at + 1] := And(Shr(v, 8), 0xFF);
      curr[at + 2] := And(Shr(v, 16), 0xFF);
      curr[at + 3] := And(Shr(v, 24), 0xFF);
    }
  }

  /** One write of a cheat's value into a segment. */
  method StoreOnce(curr: array<byte>, at: nat, c: Cheat, v: word)
    requires c.memorySearchSize <= 5 && at + BytesPerItem(c.memorySearchSize) <= curr.Length
    modifies curr
    ensures curr[..] == WriteOnce(old(curr[..]), c, at, v)
  {
    hide And, MergeByte;
    if BytesPerItem(c.memorySearchSize) == 2 {
      StoreTwo(curr, at, c.bigEndian, v);
    } else if BytesPerItem(c.memorySearchSize) == 4 {
      StoreFour(curr, at, c.bigEndian, v);
    } else if BitsPerPart(c.memorySearchSize) < 8 {
      var val := MergeBits(curr[at], c.addressMask, v);
      curr[at] := val;
    } else {
      ShiftedBytes(v);
      curr[at] := And(v, 0xFF);
    }
  }

  /** `memcpy(dst + at, src, src.Length)` */
  method CopyBytes(dst: array<byte>, at: nat, src: array<byte>)
    requires at + src.Length <= dst.Length && dst != src
    modifies dst
    ensures dst[..at + src.Length] == old(dst[..at]) + src[..]
  {
    forall k | 0 <= k < src.Length {
      dst[at + k] := src[k];
    }
  }

  /** `memset(a + at, 0, n)` */
  method ZeroRange(a: array<byte>, at: nat, n: nat)
    requires at + n <= a.Length
    modifies a
    ensures a[..] == Store(old(a[..]), at, seq(n, _ => 0))
  {
    forall k | at <= k < at + n {
      a[k] := 0;
    }
  }

  /** The end of an iteration of the repeat loop: the next value and the next address. */
  method NextIteration(c: Cheat, idx: nat, value: word, total: nat) returns (nextIdx: nat, nextValue: word)
    requires 3 <= c.memorySearchSize <= 5 && 0 < total
    ensures nextIdx == NextAddress(c, idx, total) && nextValue == NextValue(c, value)
  {
    NextIsStep(c, idx, value, total);
    nextValue := (value + c.repeatAddToValue) % WORD_SIZE % ItemMask(c.memorySearchSize);
    var step := c.repeatAddToAddress * BytesPerItem(c.memorySearchSize) % WORD_SIZE;
    nextIdx := (idx + step) % WORD_SIZE % total;
  }

  lemma BlanksAre(cheats: seq<Cheat>, earlier: seq<Cheat>, count: nat)
    requires |cheats| == |earlier| + count && cheats[..|earlier|] == earlier
    requires forall i | |earlier| <= i < |cheats| :: cheats[i] == CheatFile.BlankCheat(i)
    ensures cheats == CheatFile.Blanks(earlier, count)
  {
    hide CheatFile.BlankCheat;
  }

  /** `cheat_manager_t`: the fields the search and the patching use. */
  class CheatManager {
    var cheats: seq<Cheat>
    var segments: seq<array<byte>>
    var totalMemorySize: nat
    var prevMemory: array?<byte>
    var matches: array?<byte>
    var numMatches: word
    var searchBitSize: Width
    var bigEndian: bool
    var searchExactValue: word
    var searchEqplusValue: word
    var searchEqminusValue: word
    var memoryInitialized: bool
    var loadingCheatSize: word
    var loadingCheatOffset: word

    /** The core's memory as one flat run of bytes. */
    ghost function Memory(): seq<byte>
      reads this, segments
    {
      Flat(Contents(segments))
    }

    /** Segments are distinct, the manager's own buffers are none of them, and `total * 8` fits in a word. */
    ghost predicate Sound()
      reads this, segments
    {
      && Distinct(segments)
      && totalMemorySize == |Memory()|
      && totalMemorySize * 8 < WORD_SIZE
      && (prevMemory == null <==> matches == null)
      && (prevMemory != null ==> prevMemory != matches && prevMemory !in segments && matches !in segments)
    }

    /**
     * The search buffers exist only while the memory is marked as initialised: both go together when the state is
     * freed.
     */
    ghost predicate Valid()
      reads this, segments
    {
      Sound() && (prevMemory != null ==> memoryInitialized)
    }

    /** Segments an initialisation may take over. */
    ghost predicate Usable(segs: seq<array<byte>>)
      reads this, segs
    {
      && Distinct(segs)
      && |Flat(Contents(segs))| * 8 < WORD_SIZE
      && (prevMemory != null ==> prevMemory !in segs && matches !in segs)
    }

    /** A search has been initialised on the current segments. */
    ghost predicate Searching()
      reads this, segments
    {
      && Valid()
      && prevMemory != null && matches != null
      && prevMemory.Length == matches.Length == totalMemorySize
      && WholeSegments(segments, searchBitSize)
    }

    /** The abstract search state held by the buffers. */
    ghost function SearchState(): State
      reads this, prevMemory, matches
      requires prevMemory != null && matches != null
    {
      State(LiveSlots(matches[..], searchBitSize), prevMemory[..], numMatches)
    }

    /** The search state is `before` with its counter reset to the slots of the current memory. */
    ghost predicate Recounted(before: State)
      reads this, segments, prevMemory, matches
    {
      && Valid() && prevMemory != null && matches != null
      && SearchState() == Recount(before, searchBitSize, totalMemorySize)
    }

    constructor ()
      ensures Valid() && cheats == [] && segments == [] && prevMemory == null && searchBitSize == 3
          && !memoryInitialized
    {
      cheats, segments, totalMemorySize := [], [], 0;
      prevMemory, matches := null, null;
      numMatches, searchBitSize, bigEndian := 0, 3, false;
      searchExactValue, searchEqplusValue, searchEqminusValue := 0, 0, 0;
      memoryInitialized, loadingCheatSize, loadingCheatOffset := false, 0, 0;
    }

    /** Finds the segment of an address and that segment's offset; the search falls through when there is none. */
    method TranslateAddress(address: nat) returns (seg: nat, offset: nat)
      requires Valid()
      ensures address < totalMemorySize ==> seg < |segments| && Holds(Contents(segments), seg, address)
                                            && offset == Offset(Contents(segments), seg)
    {
      ghost var c := Contents(segments);
      seg, offset := 0, 0;
      assert c[..0] == [];
      while seg < |segments|
        invariant seg <= |segments| && offset == Offset(c, seg) <= address
      {
        OffsetStep(c, seg);
        if offset <= address < offset + segments[seg].Length {
          return;
        }
        offset := offset + segments[seg].Length;
        seg := seg + 1;
      }
      assert c[..|c|] == c;
    }

    /** The item at `address` ends inside the segment it starts in. */
    ghost predicate InOneSegment(address: nat, w: Width)
      reads this, segments
    {
      forall i: nat | i < |segments| && Holds(Contents(segments), i, address) ::
        address - Offset(Contents(segments), i) + BytesPerItem(w) <= segments[i].Length
    }

    /** Reads the item at an address of the flat memory. */
    method ReadItemAt(idx: nat, w: Width, readBigEndian: bool) returns (v: word)
      requires Valid() && idx < totalMemorySize && InOneSegment(idx, w)
      ensures idx + BytesPerItem(w) <= |Memory()|
      ensures v == ItemValue(Memory(), idx, w, readBigEndian)
      ensures v == Number(LowestFirst(Memory()[idx..idx + BytesPerItem(w)], readBigEndian))
    {
      hide ItemValue, Flat, Contents, Number, LowestFirst;
      var seg, offset := TranslateAddress(idx);
      ghost var c := Contents(segments);
      assert c[seg] == segments[seg][..];
      ItemAtSegment(c, w, seg, idx, readBigEndian);
      v := LoadItem(segments[seg], idx - offset, w, readBigEndian);
      ItemNumber(Memory(), idx, w, readBigEndian);
    }

    /** An aligned item of whole segments lies in one of them. */
    lemma AlignedInOne(idx: nat, w: Width)
      requires WholeSegments(segments, w) && Aligned(idx, w)
      ensures InOneSegment(idx, w)
    {
      hide ItemValue, Aligned, Flat, Contents;
      ghost var c := Contents(segments);
      forall i: nat | i < |segments| && Holds(c, i, idx)
        ensures idx - Offset(c, i) + BytesPerItem(w) <= segments[i].Length
      {
        ItemInSegment(c, w, i, idx, false);
      }
    }

    /** Reads the item at an aligned address of the flat memory. */
    method ReadItem(idx: nat, w: Width, readBigEndian: bool) returns (v: word)
      requires Valid() && WholeSegments(segments, w) && Aligned(idx, w) && idx < totalMemorySize
      ensures idx + BytesPerItem(w) <= |Memory()|
      ensures v == ItemValue(Memory(), idx, w, readBigEndian)
      ensures v == Number(LowestFirst(Memory()[idx..idx + BytesPerItem(w)], readBigEndian))
    {
      hide ItemValue, Flat, Contents, Aligned, Number, LowestFirst;
      AlignedInOne(idx, w);
      v := ReadItemAt(idx, w, readBigEndian);
    }

    /** Copies the segments into `prevMemory`, one after another. */
    method Snapshot()
      requires Sound() && prevMemory != null && prevMemory.Length == totalMemorySize
      modifies prevMemory
      ensures prevMemory[..] == Memory()
    {
      hide Flat, Contents;
      ghost var c := Contents(segments);
      var i, offset := 0, 0;
      FlatNone();
      assert c[..0] == [];
      while i < |segments|
        invariant i <= |segments| && offset == Offset(c, i) <= totalMemorySize
        invariant Contents(segments) == c
        invariant prevMemory[..offset] == Flat(c[..i])
      {
        OffsetStep(c, i);
        FlatAt(c, i);
        CopyBytes(prevMemory, offset, segments[i]);
        offset := offset + segments[i].Length;
        i := i + 1;
      }
      assert c[..|c|] == c;
      assert prevMemory[..offset] == prevMemory[..];
    }

    /** Adds one segment to the lists. */
    method AppendSegment(data: array<byte>)
      requires totalMemorySize == |Memory()|
      modifies this`segments, this`totalMemorySize
      ensures segments == old(segments) + [data]
      ensures totalMemorySize == |Memory()|
    {
      segments := segments + [data];
      totalMemorySize := totalMemorySize + data.Length;
      assert segments[..|segments| - 1] == old(segments);
      assert Contents(segments)[..|segments| - 1] == Contents(segments[..|segments| - 1]);
    }

    /** Collects the RAM descriptors, or falls back on the core's single RAM block. */
    method FindSegments(descriptors: seq<Descriptor>, systemRam: array?<byte>)
      modifies this`segments, this`totalMemorySize
      ensures segments == FoundSegments(descriptors, systemRam)
      ensures totalMemorySize == |Memory()|
    {
      hide Contents, Flat;
      segments, totalMemorySize := [], 0;
      NoMemory();
      var i := 0;
      while i < |descriptors|
        invariant i <= |descriptors|
        invariant segments == RamSegments(descriptors[..i])
        invariant totalMemorySize == |Memory()|
      {
        var d := descriptors[i];
        RamSegmentsStep(descriptors, i);
        if d.isSystemRam && d.data != null && d.data.Length > 0 {
          AppendSegment(d.data);
        }
        i := i + 1;
      }
      assert descriptors[..i] == descriptors;
      if |segments| == 0 && systemRam != null && systemRam.Length > 0 {
        AppendSegment(systemRam);
      }
    }

    /** Allocates the snapshot and the match array, all ones, and fills the snapshot. */
    method BeginSearch()
      requires Distinct(segments) && totalMemorySize == |Memory()| && totalMemorySize * 8 < WORD_SIZE
      modifies this`prevMemory, this`matches
      ensures Sound() && prevMemory != null && matches != null && fresh(prevMemory) && fresh(matches)
      ensures prevMemory[..] == Memory() && matches.Length == totalMemorySize
      ensures LiveSlots(matches[..], searchBitSize) == seq(SlotCount(searchBitSize, totalMemorySize), _ => true)
      ensures WellPacked(matches[..], searchBitSize)
    {
      hide SlotCount, LiveSlots, SlotPacked, Flat, Contents;
      prevMemory := new byte[totalMemorySize](_ => 0);
      matches := new byte[totalMemorySize](_ => 0xFF);
      ghost var ms := matches[..];
      assert forall i | 0 <= i < |ms| :: ms[i] == 0xFF;
      AllLive(ms, searchBitSize);
      Snapshot();
      assert matches[..] == ms;
    }

    /**
     * `cheat_manager_initialize_memory`: finds the segments and, when a search is being started, makes every slot
     * live.
     */
    method InitializeMemory(descriptors: seq<Descriptor>, systemRam: array?<byte>, startSearch: bool)
      requires Valid()
      requires Usable(FoundSegments(descriptors, systemRam))
      modifies this`segments, this`totalMemorySize, this`numMatches, this`prevMemory, this`matches,
          this`memoryInitialized
      ensures Valid() && segments == FoundSegments(descriptors, systemRam)
      ensures Memory() == old(Flat(Contents(FoundSegments(descriptors, systemRam))))
      ensures (forall d | d in descriptors :: !HasRam(d)) ==>
                if systemRam != null && systemRam.Length > 0
                then segments == [systemRam] && Memory() == systemRam[..] && memoryInitialized
                else segments == [] && memoryInitialized == old(memoryInitialized)
      ensures (exists d :: d in descriptors && HasRam(d)) ==>
                memoryInitialized && exists at :: TakenAt(descriptors, segments, at)
      ensures memoryInitialized == (old(memoryInitialized) || segments != [])
      ensures numMatches == if segments == [] then old(numMatches) else StartingMatches(searchBitSize, |Memory()|)
      ensures startSearch && segments != [] ==> fresh(prevMemory) && fresh(matches)
      ensures startSearch && segments != [] ==> SearchState() == Start(searchBitSize, Memory())
      ensures startSearch && segments != [] ==> WellPacked(matches[..], searchBitSize)
      ensures startSearch && segments != [] && WholeSegments(segments, searchBitSize) ==> Searching()
      ensures !startSearch || segments == [] ==> prevMemory == old(prevMemory) && matches == old(matches)
      ensures old(prevMemory != null) && !startSearch && segments != [] ==> Recounted(old(SearchState()))
    {
      hide Contents, Flat, StartingMatches, SlotCount, Aligned, FoundSegments, HasRam, TakenAt;
      FindSegments(descriptors, systemRam);
      assert Memory() == old(Flat(Contents(FoundSegments(descriptors, systemRam))));
      FoundExact(descriptors, systemRam);
      if systemRam != null {
        FlatOfOne(systemRam);
      }
      if |segments| == 0 {
        return;
      }
      StartingCount(searchBitSize, totalMemorySize);
      numMatches := StartingMatches(searchBitSize, totalMemorySize);
      if startSearch {
        BeginSearch();
      }
      memoryInitialized := true;
    }

    /** Drops the slot `part` of the item at `idx`: clears its match bits and counts down. */
    method DropMatch(idx: nat, part: nat)
      requires matches != null && Aligned(idx, searchBitSize) && part < Parts(searchBitSize)
      requires idx + BytesPerItem(searchBitSize) <= matches.Length
      modifies matches, this`numMatches
      ensures FirstSlot(searchBitSize, idx) + part < SlotCount(searchBitSize, matches.Length)
      ensures matches[..] == ClearSlot(old(matches[..]), searchBitSize, FirstSlot(searchBitSize, idx) + part)
      ensures numMatches == CountDown(old(numMatches), 1)
    {
      hide And, GroupMask, SlotAddr, SlotPart, SlotCount, FirstSlot, Aligned;
      SlotOfItem(searchBitSize, idx, part);
      if BitsPerPart(searchBitSize) < 8 {
        matches[idx] := And(matches[idx], NotByte(GroupMask(searchBitSize, part)));
      } else {
        ZeroRange(matches, idx, BytesPerItem(searchBitSize));
      }
      if numMatches > 0 {
        numMatches := numMatches - 1;
      }
    }

    /** The match bits the engine tests for `part` of the item at `idx`. */
    method PrevMatch(idx: nat, part: nat) returns (bits: byte)
      requires matches != null && Aligned(idx, searchBitSize) && part < Parts(searchBitSize)
      requires idx + BytesPerItem(searchBitSize) <= matches.Length
      ensures FirstSlot(searchBitSize, idx) + part < SlotCount(searchBitSize, matches.Length)
      ensures bits == MatchBits(matches[..], searchBitSize, FirstSlot(searchBitSize, idx) + part)
    {
      hide And, GroupMask, SlotAddr, SlotPart, SlotCount, FirstSlot, Aligned;
      SlotOfItem(searchBitSize, idx, part);
      if BitsPerPart(searchBitSize) < 8 {
        bits := And(matches[idx], GroupMask(searchBitSize, part));
      } else {
        bits := matches[idx];
      }
    }

    /** The search described by the manager's current settings. */
    ghost function CurrentSearch(kind: SearchType): SearchSession.Search
      reads this, segments
    {
      Search.Search(kind, searchExactValue, searchEqplusValue, searchEqminusValue, bigEndian, Memory())
    }

    /** The comparison a search makes on one slot. */
    method SlotMatches(kind: SearchType, currSubval: word, prevSubval: word) returns (matched: bool)
      ensures matched == Matches(CurrentSearch(kind), currSubval, prevSubval)
    {
      match kind
      case Exact => matched := currSubval == searchExactValue;
      case Lt => matched := currSubval < prevSubval;
      case Gt => matched := currSubval > prevSubval;
      case Lte => matched := currSubval <= prevSubval;
      case Gte => matched := currSubval >= prevSubval;
      case Eq => matched := currSubval == prevSubval;
      case Neq => matched := currSubval != prevSubval;
      case EqPlus => matched := currSubval == (prevSubval + searchEqplusValue) % WORD_SIZE;
      case EqMinus => matched := currSubval == (prevSubval - searchEqminusValue) % WORD_SIZE;
    }

    /**
     * How far a search has got: slots below `j` hold its verdict, and the counter has gone down once for each slot
     * dropped.
     */
    ghost predicate Scanned(j: nat, before: seq<bool>, after: seq<bool>, count: word, packed: bool)
      reads this, matches
    {
      && matches != null
      && Narrowed(matches[..], searchBitSize, j, before, after)
      && |Survivors(LiveSlots(matches[..], searchBitSize))| <= |Survivors(before)|
      && numMatches == CountDown(count, |Survivors(before)| - |Survivors(LiveSlots(matches[..], searchBitSize))|)
      && (packed ==> WellPacked(matches[..], searchBitSize))
    }

    /** The inner loop of the search: the slots of the item at `idx`. */
    method SearchItem(kind: SearchType, idx: nat, currVal: word, prevVal: word,
                      ghost before: seq<bool>, ghost after: seq<bool>, ghost count: word, ghost packed: bool)
      requires matches != null && prevMemory != null && matches != prevMemory && matches !in segments
      requires prevMemory.Length == matches.Length == |Memory()| && |before| == SlotCount(searchBitSize, matches.Length)
      requires Aligned(idx, searchBitSize) && idx + BytesPerItem(searchBitSize) <= matches.Length
      requires currVal == ItemValue(Memory(), idx, searchBitSize, bigEndian)
      requires prevVal == ItemValue(prevMemory[..], idx, searchBitSize, bigEndian)
      requires after == Filter(CurrentSearch(kind), searchBitSize, prevMemory[..], before)
      requires Scanned(FirstSlot(searchBitSize, idx), before, after, count, packed)
      modifies matches, this`numMatches
      ensures Scanned(FirstSlot(searchBitSize, idx) + Parts(searchBitSize), before, after, count, packed)
    {
      hide Aligned, FirstSlot, SlotCount, SubValue, MatchBits, LiveSlots, Flat, Contents, Survivors, ItemValue,
          SlotPacked, ClearSlot, Keeps, Matches, Narrowed;
      ghost var w, prev, search := searchBitSize, prevMemory[..], CurrentSearch(kind);
      var bytePart := 0;
      while bytePart < Parts(searchBitSize)
        invariant bytePart <= Parts(w)
        invariant Scanned(FirstSlot(w, idx) + bytePart, before, after, count, packed)
        invariant prevMemory[..] == prev && CurrentSearch(kind) == search
      {
        var currSubval := SubValue(currVal, searchBitSize, bytePart);
        var prevSubval := SubValue(prevVal, searchBitSize, bytePart);
        ghost var j := FirstSlot(w, idx) + bytePart;
        SlotOfItem(w, idx, bytePart);
        SlotVerdict(search, w, prev, before, idx, bytePart);
        NarrowSlot(matches[..], w, j, before, after);
        var prevMatch := PrevMatch(idx, bytePart);
        if prevMatch > 0 {
          var matched := SlotMatches(kind, currSubval, prevSubval);
          if !matched {
            CountDownStep(count, |Survivors(before)| - |Survivors(LiveSlots(matches[..], w))|);
            DropMatch(idx, bytePart);
          }
        }
        bytePart := bytePart + 1;
      }
    }

    /** The memory of whole segments is a whole number of items. */
    lemma WholeMemory()
      requires Valid() && WholeSegments(segments, searchBitSize)
      ensures Aligned(totalMemorySize, searchBitSize)
    {
      WholeFlat(Contents(segments), searchBitSize);
    }

    /** The outer loop of the search: one item after another. */
    method SearchItems(kind: SearchType, ghost before: seq<bool>, ghost after: seq<bool>, ghost count: word,
        ghost packed: bool)
      requires Searching() && |before| == SlotCount(searchBitSize, totalMemorySize)
      requires after == Filter(CurrentSearch(kind), searchBitSize, prevMemory[..], before)
      requires Scanned(0, before, after, count, packed)
      modifies matches, this`numMatches
      ensures Scanned(|before|, before, after, count, packed)
    {
      hide Aligned, FirstSlot, SlotCount, Flat, Contents, Survivors, ItemValue, Narrowed, Filter, Number,
          LowestFirst;
      ghost var mem, prev, w := Memory(), prevMemory[..], searchBitSize;
      WholeMemory();
      ScanStart(w, totalMemorySize);
      var idx := 0;
      while idx < totalMemorySize
        invariant 0 <= idx <= totalMemorySize && Aligned(idx, w)
        invariant Memory() == mem && prevMemory[..] == prev
        invariant Scanned(FirstSlot(w, idx), before, after, count, packed)
      {
        ItemBefore(idx, totalMemorySize, w);
        var currVal := ReadItem(idx, searchBitSize, bigEndian);
        var prevVal := LoadItem(prevMemory, idx, searchBitSize, bigEndian);
        SearchItem(kind, idx, currVal, prevVal, before, after, count, packed);
        ScanStep(w, idx, totalMemorySize);
        idx := idx + BytesPerItem(searchBitSize);
      }
    }

    /** `cheat_manager_search`: drops every live slot that does not match and takes a new snapshot. */
    method RunSearch(kind: SearchType)
      requires if segments == [] || prevMemory == null then Valid() else Searching()
      modifies this`numMatches, prevMemory, matches
      ensures segments == [] || prevMemory == null ==> unchanged(this)
      ensures segments == [] && prevMemory != null ==> unchanged(prevMemory) && unchanged(matches)
      ensures segments != [] && prevMemory != null ==>
                && Searching() && Memory() == old(Memory())
                && SearchState() == Step(old(SearchState()), searchBitSize, Narrow(old(CurrentSearch(kind))))
                && (old(WellPacked(matches[..], searchBitSize)) ==> WellPacked(matches[..], searchBitSize))
    {
      hide Aligned, FirstSlot, SlotCount, LiveSlots, Flat, Contents, Survivors, ItemValue, SlotPacked, Keeps;
      if |segments| == 0 || prevMemory == null {
        return;
      }
      ghost var search, count, packed := CurrentSearch(kind), numMatches, WellPacked(matches[..], searchBitSize);
      ghost var before := LiveSlots(matches[..], searchBitSize);
      LiveCount(matches[..], searchBitSize);
      ghost var after := Filter(search, searchBitSize, prevMemory[..], before);
      FewerSurvive(before, after);
      assert after[..0] + before[0..] == before;
      SearchItems(kind, before, after, count, packed);
      assert after[..|before|] + before[|before|..] == after;
      Snapshot();
    }

    /** `cheat_manager_realloc`: cuts the list, or extends it with fresh entries. */
    method Realloc(newSize: nat, defaultHandler: word)
      modifies this`cheats
      ensures newSize <= |old(cheats)| ==> cheats == old(cheats)[..newSize]
      ensures newSize > |old(cheats)| ==> |cheats| == newSize && old(cheats) <= cheats
      ensures forall k | |old(cheats)| <= k < |cheats| :: cheats[k] == FreshCheat(Wrap(k), defaultHandler)
    {
      if newSize < |cheats| {
        cheats := cheats[..newSize];
      }
      var i := |cheats|;
      while i < newSize
        invariant |cheats| == i
        invariant newSize <= |old(cheats)| ==> cheats == old(cheats)[..newSize]
        invariant newSize > |old(cheats)| ==> |old(cheats)| <= i <= newSize && old(cheats) <= cheats
        invariant forall k | |old(cheats)| <= k < |cheats| :: cheats[k] == FreshCheat(Wrap(k), defaultHandler)
      {
        cheats := cheats + [FreshCheat(Wrap(i), defaultHandler)];
        i := i + 1;
      }
    }

    /** `cheat_manager_add_new_code` */
    method AddNewCode(w: Width, address: word, addressMask: word, codeBigEndian: bool, value: word)
      modifies this`cheats
      ensures cheats == old(cheats) + [NewCode(Wrap(|old(cheats)|), w, address, addressMask, codeBigEndian, value)]
    {
      Realloc(|cheats| + 1, HANDLER_RETRO);
      var last := |cheats| - 1;
      cheats := cheats[last := cheats[last].(address := address)];
      cheats := cheats[last := cheats[last].(addressMask := addressMask)];
      cheats := cheats[last := cheats[last].(memorySearchSize := w)];
      cheats := cheats[last := cheats[last].(value := value)];
      cheats := cheats[last := cheats[last].(bigEndian := codeBigEndian)];
    }

    /**
     * What VIEW, COPY and DELETE have done to slot `j`, given the match bytes, the cheats and the counter from
     * before.
     */
    ghost predicate ActedOn(action: MatchActionType, j: nat, report: MatchReport, ms: seq<byte>, codes: seq<Cheat>,
        count: word)
      requires Searching() && |ms| == totalMemorySize && j < SlotCount(searchBitSize, totalMemorySize)
      reads this, segments, matches, prevMemory
    {
      SlotInRange(searchBitSize, j, totalMemorySize);
      var a := SlotAddr(searchBitSize, j);
      && report == (if !action.View? then NoReport
                    else Viewed(a, MatchMask(searchBitSize, j), ItemValue(prevMemory[..], a, searchBitSize, bigEndian),
                                ItemValue(Memory(), a, searchBitSize, bigEndian)))
      && cheats == codes + (if action.Copy? then [MatchCode(Wrap(|codes|), Memory(), searchBitSize, bigEndian,
          j)] else [])
      && (if action.DeleteMatch? then matches[..] == ClearSlot(ms, searchBitSize, j)
          && numMatches == CountDown(count, 1)
          else matches[..] == ms && numMatches == count)
    }

    /** Performs the action once the scan has found its slot, `part` of the item at `idx`. */
    method ActOnMatch(action: MatchActionType, idx: nat, part: nat, currVal: word, prevVal: word,
        ghost j: nat) returns (report: MatchReport)
      requires Searching() && !action.Browse?
      requires Aligned(idx, searchBitSize) && idx + BytesPerItem(searchBitSize) <= totalMemorySize
          && part < Parts(searchBitSize)
      requires currVal == ItemValue(Memory(), idx, searchBitSize, bigEndian)
      requires prevVal == ItemValue(prevMemory[..], idx, searchBitSize, bigEndian)
      requires j == FirstSlot(searchBitSize, idx) + part && j < SlotCount(searchBitSize, totalMemorySize)
      modifies matches, this`numMatches, this`cheats
      ensures Searching() && ActedOn(action, j, report, old(matches[..]), old(cheats), old(numMatches))
    {
      hide SlotAddr, SlotPart, SlotCount, FirstSlot, Aligned, ItemValue, GroupMask, Flat, Contents, ClearSlot;
      SlotOfItem(searchBitSize, idx, part);
      report := NoReport;
      var mask := if BitsPerPart(searchBitSize) < 8 then GroupMask(searchBitSize, part) else 0xFF;
      match action
      case View => report := Viewed(idx, mask, prevVal, currVal);
      case Copy => AddNewCode(searchBitSize, idx, mask, bigEndian, currVal);
      case DeleteMatch => DropMatch(idx, part);
      case Browse =>
    }

    /** The inner loop of the match scan: counts the matches of one item and acts on the one with index `target`. */
    method MatchInItem(action: MatchActionType, target: word, idx: nat, currVal: word, prevVal: word,
        currMatchIdx: nat, ghost live: seq<bool>)
      returns (found: bool, matchIdx: nat, report: MatchReport)
      requires Searching() && !action.Browse? && live == LiveSlots(matches[..], searchBitSize)
      requires Aligned(idx, searchBitSize) && idx + BytesPerItem(searchBitSize) <= totalMemorySize
      requires currVal == ItemValue(Memory(), idx, searchBitSize, bigEndian)
      requires prevVal == ItemValue(prevMemory[..], idx, searchBitSize, bigEndian)
      requires FirstSlot(searchBitSize, idx) <= |live|
          && currMatchIdx == |Survivors(live[..FirstSlot(searchBitSize, idx)])| <= target
      modifies matches, this`numMatches, this`cheats
      ensures Searching()
      ensures found ==> target < |Survivors(live)| && ActedOn(action, Survivors(live)[target], report,
          old(matches[..]), old(cheats), old(numMatches))
      ensures !found ==> unchanged(this) && unchanged(matches) && report == NoReport
      ensures !found ==> FirstSlot(searchBitSize, idx) + Parts(searchBitSize) <= |live|
      ensures !found ==> matchIdx == |Survivors(live[..FirstSlot(searchBitSize, idx) + Parts(searchBitSize)])| <= target
    {
      hide SlotAddr, SlotPart, SlotCount, FirstSlot, Aligned, ItemValue, GroupMask, Flat, Contents, ClearSlot,
          MatchBits, Survivors, ActedOn;
      ghost var w, first, ms := searchBitSize, FirstSlot(searchBitSize, idx), matches[..];
      found, matchIdx, report := false, currMatchIdx, NoReport;
      var bytePart := 0;
      while bytePart < Parts(searchBitSize)
        invariant bytePart <= Parts(w) && unchanged(this) && unchanged(matches) && matches[..] == ms
        invariant first + bytePart <= |live|
        invariant matchIdx == |Survivors(live[..first + bytePart])| <= target
      {
        ghost var j := first + bytePart;
        SlotOfItem(w, idx, bytePart);
        assert j < SlotCount(w, totalMemorySize) == |live|;
        CountStep(live, j);
        var prevMatch := PrevMatch(idx, bytePart);
        assert live[j] == (prevMatch > 0);
        if prevMatch > 0 {
          if target == matchIdx {
            report := ActOnMatch(action, idx, bytePart, currVal, prevVal, j);
            found := true;
            return;
          }
          matchIdx := matchIdx + 1;
        }
        bytePart := bytePart + 1;
      }
    }

    /** The outer loop of the match scan. */
    method ScanMatches(action: MatchActionType, target: word, ghost live: seq<bool>) returns (report: MatchReport)
      requires Searching() && !action.Browse? && live == LiveSlots(matches[..], searchBitSize)
      modifies matches, this`numMatches, this`cheats
      ensures Searching()
      ensures if target < |Survivors(live)| then ActedOn(action, Survivors(live)[target], report, old(matches[..]),
          old(cheats), old(numMatches))
              else unchanged(this) && unchanged(matches) && report == NoReport
    {
      hide SlotAddr, SlotPart, FirstSlot, SlotCount, Aligned, ItemValue, GroupMask, Flat, Contents, ClearSlot,
          MatchBits, Survivors, LiveSlots, ActedOn;
      ghost var w, ms := searchBitSize, matches[..];
      LiveCount(matches[..], w);
      WholeMemory();
      ScanStart(w, totalMemorySize);
      NoSurvivors();
      assert live[..0] == [] && live[..|live|] == live;
      report := NoReport;
      var idx, currMatchIdx := 0, 0;
      while idx < totalMemorySize
        invariant idx <= totalMemorySize && Aligned(idx, w)
        invariant unchanged(this) && unchanged(matches) && matches[..] == ms && report == NoReport
        invariant FirstSlot(w, idx) <= |live| && currMatchIdx == |Survivors(live[..FirstSlot(w, idx)])| <= target
      {
        ItemBefore(idx, totalMemorySize, w);
        var currVal := ReadItem(idx, searchBitSize, bigEndian);
        var prevVal := LoadItem(prevMemory, idx, searchBitSize, bigEndian);
        var found;
        found, currMatchIdx, report := MatchInItem(action, target, idx, currVal, prevVal, currMatchIdx, live);
        if found {
          return;
        }
        assert matches[..] == ms;
        ScanStep(w, idx, totalMemorySize);
        idx := idx + BytesPerItem(searchBitSize);
      }
    }

    /**
     * BROWSE: the current and the stored value of the item at `address`, when `target` passes the guard all actions
     * share.
     */
    method BrowseItem(target: word, address: nat) returns (report: MatchReport)
      requires Valid() && InOneSegment(address, searchBitSize)
      requires prevMemory != null ==> prevMemory.Length == totalMemorySize
      ensures address < totalMemorySize && target <= Wrap(numMatches - 1) ==>
                && address + BytesPerItem(searchBitSize) <= |Memory()| == totalMemorySize
                && report == Browsed(if prevMemory == null then 0
                                     else ItemValue(prevMemory[..], address, searchBitSize, bigEndian),
                                     ItemValue(Memory(), address, searchBitSize, bigEndian))
      ensures address >= totalMemorySize || target > Wrap(numMatches - 1) ==> report == NoReport
    {
      hide ItemValue, Flat, Contents, InOneSegment;
      report := NoReport;
      if target > Wrap(numMatches - 1) {
        return;
      }
      if address < totalMemorySize {
        var currVal := ReadItemAt(address, searchBitSize, bigEndian);
        var prevVal: word := 0;
        if prevMemory != null {
          prevVal := LoadItem(prevMemory, address, searchBitSize, bigEndian);
        }
        report := Browsed(prevVal, currVal);
      }
    }

    /** What the action on slot `j` means for the report, the list, the live slots and the counter. */
    ghost predicate ActionDone(action: MatchActionType, j: nat, report: MatchReport, live: seq<bool>,
                               codes: seq<Cheat>, count: nat)
      requires Searching() && |live| == SlotCount(searchBitSize, totalMemorySize) && j < |live|
      reads this, segments, matches, prevMemory
    {
      var w, a := searchBitSize, SlotAddr(searchBitSize, j);
      SlotInRange(w, j, totalMemorySize);
      && a + BytesPerItem(w) <= totalMemorySize
      && match action
         case View =>
           && report.Viewed? && report.address == a && report.addressMask == MatchMask(w, j)
           && report.prevValue == ItemValue(prevMemory[..], a, w, bigEndian)
           && report.currValue == ItemValue(Memory(), a, w, bigEndian)
           && cheats == codes && LiveSlots(matches[..], w) == live && numMatches == count
         case Copy =>
           && report == NoReport && cheats == codes + [MatchCode(Wrap(|codes|), Memory(), w, bigEndian, j)]
           && LiveSlots(matches[..], w) == live && numMatches == count
         case DeleteMatch =>
           && report == NoReport && cheats == codes
           && LiveSlots(matches[..], w) == live[j := false] && numMatches == count - 1
         case Browse => true
    }

    lemma ActedIsDone(action: MatchActionType, j: nat, report: MatchReport, ms: seq<byte>, codes: seq<Cheat>,
                      count: word)
      requires Searching() && |ms| == totalMemorySize && j < SlotCount(searchBitSize, totalMemorySize) && count > 0
      requires ActedOn(action, j, report, ms, codes, count) && !action.Browse?
      ensures |LiveSlots(ms, searchBitSize)| == SlotCount(searchBitSize, totalMemorySize)
      ensures ActionDone(action, j, report, LiveSlots(ms, searchBitSize), codes, count)
    {
      hide Flat, Contents, LiveSlots, ItemValue, SlotPacked, SlotAddr, MatchMask, MatchCode, SlotCount, ClearSlot;
      SlotInRange(searchBitSize, j, totalMemorySize);
      LiveCount(ms, searchBitSize);
      ClearSlotEffect(ms, searchBitSize, j);
    }

    /**
     * `cheat_manager_match_action` for VIEW, DELETE and COPY of the match with index `target`. With a right counter an
     * index below it acts on that entry of the enumeration of matches, and any other does nothing.
     */
    method MatchAction(action: MatchActionType, target: word) returns (report: MatchReport)
      requires !action.Browse? && (if prevMemory == null then Valid() else Searching())
      modifies matches, this`numMatches, this`cheats
      ensures prevMemory == null ==> unchanged(this) && report == NoReport
      ensures prevMemory != null ==>
                var j := Target(old(SearchState()), target);
                Searching() && if j >= 0 then ActedOn(action, j, report, old(matches[..]), old(cheats),
                    old(numMatches)) else unchanged(this) && unchanged(matches) && report == NoReport
      ensures prevMemory != null ==>
                var live := old(LiveSlots(matches[..], searchBitSize));
                && |live| == SlotCount(searchBitSize, totalMemorySize)
                && (old(numMatches) == |Survivors(live)| && target >= |Survivors(live)| ==>
                      unchanged(this) && unchanged(matches) && report == NoReport)
      ensures prevMemory != null && old(numMatches) == |Survivors(old(LiveSlots(matches[..], searchBitSize)))|
              && target < old(numMatches) ==>
                var w, live := searchBitSize, old(LiveSlots(matches[..], searchBitSize));
                var j := Survivors(live)[target];
                && SlotAddr(w, j) + BytesPerItem(w) <= totalMemorySize
                && (action.View? ==>
                      && report.Viewed? && report.address == SlotAddr(w, j) && report.addressMask == MatchMask(w, j)
                      && report.prevValue == ItemValue(prevMemory[..], SlotAddr(w, j), w, bigEndian)
                      && report.currValue == ItemValue(Memory(), SlotAddr(w, j), w, bigEndian)
                      && cheats == old(cheats) && LiveSlots(matches[..], w) == live && numMatches == old(numMatches))
                && (action.Copy? ==>
                      && report == NoReport && |Memory()| < WORD_SIZE && j < SlotCount(w, |Memory()|)
                      && cheats == old(cheats) + [MatchCode(Wrap(|old(cheats)|), Memory(), w, bigEndian, j)]
                      && LiveSlots(matches[..], w) == live && numMatches == old(numMatches))
                && (action.DeleteMatch? ==>
                      && report == NoReport && cheats == old(cheats)
                      && LiveSlots(matches[..], w) == live[j := false] && numMatches == old(numMatches) - 1)
    {
      hide Survivors, Flat, Contents, ActedOn, LiveSlots, SlotCount, SlotAddr, ItemValue, MatchCode, MatchMask;
      report := NoReport;
      if prevMemory != null {
        LiveCount(matches[..], searchBitSize);
      }
      if target > Wrap(numMatches - 1) || prevMemory == null {
        return;
      }
      ghost var live, ms, codes, count := LiveSlots(matches[..], searchBitSize), matches[..], cheats, numMatches;
      report := ScanMatches(action, target, live);
      if target < |Survivors(live)| && count == |Survivors(live)| {
        ActedIsDone(action, Survivors(live)[target], report, ms, codes, count);
      }
    }

    /** DELETE is the abstract deletion, and keeps the match bits packed. */
    method DeleteAt(target: word)
      requires Searching()
      modifies matches, this`numMatches, this`cheats
      ensures Searching() && cheats == old(cheats)
      ensures SearchState() == Step(old(SearchState()), searchBitSize, Delete(target))
      ensures old(WellPacked(matches[..], searchBitSize)) ==> WellPacked(matches[..], searchBitSize)
    {
      hide Survivors, Flat, LiveSlots, SlotPacked;
      ghost var j, ms, prev := Target(SearchState(), target), matches[..], prevMemory[..];
      if j >= 0 {
        LiveCount(matches[..], searchBitSize);
        ClearSlotEffect(matches[..], searchBitSize, j);
      }
      var report := MatchAction(DeleteMatch, target);
      assert prevMemory[..] == prev;
      assert matches[..] == if j >= 0 then ClearSlot(ms, searchBitSize, j) else ms;
    }

    /** The codes made so far: those of the survivors below slot `j`, after the cheats that were there. */
    ghost predicate CodesAdded(j: nat, live: seq<bool>, codes: seq<Cheat>)
      reads this, segments
      requires |Memory()| < WORD_SIZE && j <= |live| == SlotCount(searchBitSize, |Memory()|)
    {
      PrefixSlots(live, j);
      cheats == codes + MatchCodes(|codes|, Memory(), searchBitSize, bigEndian, Survivors(live[..j]))
    }

    /** The inner loop of `cheat_manager_add_matches`. */
    method AddItem(idx: nat, currVal: word, ghost live: seq<bool>, ghost codes: seq<Cheat>)
      requires Searching() && live == LiveSlots(matches[..], searchBitSize) && |live| == SlotCount(searchBitSize,
          |Memory()|)
      requires Aligned(idx, searchBitSize) && idx + BytesPerItem(searchBitSize) <= totalMemorySize
      requires currVal == ItemValue(Memory(), idx, searchBitSize, bigEndian)
      requires FirstSlot(searchBitSize, idx) <= |live| && CodesAdded(FirstSlot(searchBitSize, idx), live, codes)
      modifies this`cheats
      ensures FirstSlot(searchBitSize, idx) + Parts(searchBitSize) <= |live|
      ensures CodesAdded(FirstSlot(searchBitSize, idx) + Parts(searchBitSize), live, codes)
    {
      hide SlotAddr, SlotPart, SlotCount, FirstSlot, Aligned, ItemValue, GroupMask, Flat, Contents, MatchBits,
          Survivors, MatchCodes, NewCode;
      ghost var w, first, mem := searchBitSize, FirstSlot(searchBitSize, idx), Memory();
      var bytePart := 0;
      while bytePart < Parts(searchBitSize)
        invariant bytePart <= Parts(w) && Memory() == mem
        invariant first + bytePart <= |live| && CodesAdded(first + bytePart, live, codes)
      {
        ghost var j := first + bytePart;
        SlotOfItem(w, idx, bytePart);
        assert j < SlotCount(w, totalMemorySize) == |live|;
        SurvivorStep(live, j);
        PrefixSlots(live, j);
        MatchCodesStep(|codes|, mem, w, bigEndian, Survivors(live[..j]), j);
        var prevMatch := PrevMatch(idx, bytePart);
        assert live[j] == (prevMatch > 0);
        assert !live[j] ==> Survivors(live[..j + 1]) == Survivors(live[..j]);
        if BitsPerPart(searchBitSize) < 8 {
          if prevMatch > 0 {
            AddNewCode(searchBitSize, idx, GroupMask(searchBitSize, bytePart), bigEndian, currVal);
          }
        } else {
          if prevMatch > 0 {
            AddNewCode(searchBitSize, idx, 0xFF, bigEndian, currVal);
          }
        }
        bytePart := bytePart + 1;
      }
    }

    /**
     * `cheat_manager_add_matches`: unless the list would grow past 100, appends the code of every survivor, in order.
     */
    method AddMatches()
      requires Searching()
      modifies this`cheats
      ensures Wrap(numMatches + |old(cheats)|) > 100 ==> cheats == old(cheats)
      ensures Wrap(numMatches + |old(cheats)|) <= 100 ==>
                var live := LiveSlots(matches[..], searchBitSize);
                |live| == SlotCount(searchBitSize, |Memory()|) && CodesAdded(|live|, live, old(cheats))
      ensures Wrap(numMatches + |old(cheats)|) <= 100 ==>
                var matched := Survivors(LiveSlots(matches[..], searchBitSize));
                && |cheats| == |old(cheats)| + |matched| && cheats[..|old(cheats)|] == old(cheats)
                && |Memory()| < WORD_SIZE && (forall j | j in matched :: j < SlotCount(searchBitSize, |Memory()|))
                && forall k | 0 <= k < |matched| ::
                     cheats[|old(cheats)| + k]
                     == MatchCode(Wrap(|old(cheats)| + k), Memory(), searchBitSize, bigEndian, matched[k])
    {
      hide SlotAddr, SlotPart, SlotCount, FirstSlot, Aligned, ItemValue, Flat, Contents, MatchBits, Survivors,
          MatchCodes, LiveSlots, Number, LowestFirst, MatchCode;
      if Wrap(numMatches + |cheats|) > 100 {
        return;
      }
      ghost var live, codes, w, mem := LiveSlots(matches[..], searchBitSize), cheats, searchBitSize, Memory();
      LiveCount(matches[..], w);
      WholeMemory();
      ScanStart(w, totalMemorySize);
      NoSurvivors();
      NoMatchCodes(|codes|, mem, w, bigEndian);
      assert live[..0] == [];
      var idx := 0;
      while idx < totalMemorySize
        invariant idx <= totalMemorySize && Aligned(idx, w) && Memory() == mem
        invariant FirstSlot(w, idx) <= |live| && CodesAdded(FirstSlot(w, idx), live, codes)
      {
        ItemBefore(idx, totalMemorySize, w);
        var currVal := ReadItem(idx, searchBitSize, bigEndian);
        AddItem(idx, currVal, live, codes);
        ScanStep(w, idx, totalMemorySize);
        idx := idx + BytesPerItem(searchBitSize);
      }
      assert live[..|live|] == live;
      PrefixSlots(live, |live|);
      CodesByIndex(|codes|, mem, w, bigEndian, Survivors(live));
    }

    /** One write into the segment that holds `idx`. */
    method WriteAt(seg: nat, idx: nat, offset: nat, c: Cheat, value: word)
      requires Valid() && Fits(c, totalMemorySize) && WholeSegments(segments, c.memorySearchSize)
      requires Aligned(idx, c.memorySearchSize) && idx + BytesPerItem(c.memorySearchSize) <= totalMemorySize
      requires seg < |segments| && Holds(Contents(segments), seg, idx) && offset == Offset(Contents(segments), seg)
      modifies segments
      ensures Valid() && Memory() == WriteOnce(old(Memory()), c, idx, value)
      ensures Offset(Contents(segments), seg) == offset
      ensures forall k: nat | k < |Memory()| && !(idx <= k < idx + BytesPerItem(c.memorySearchSize)) ::
                Memory()[k] == old(Memory())[k]
      ensures c.memorySearchSize >= 3 ==>
                Number(LowestFirst(Memory()[idx..idx + BytesPerItem(c.memorySearchSize)], c.bigEndian))
                == if c.memorySearchSize == 5 then value else if c.memorySearchSize == 4 then value % 0x1_0000
                   else value % 0x100
      ensures c.memorySearchSize < 3 ==>
                forall t: nat | t < 8 ::
                  BitSet(Memory()[idx], t)
                  == if BitSet(c.addressMask, t) then BitSet(value, t) else BitSet(old(Memory())[idx], t)
    {
      hide Flat, Contents, Aligned, WriteOnce, ItemValue, Number, LowestFirst, BitSet;
      ghost var before := Contents(segments);
      assert offset <= idx;
      ItemInSegment(before, c.memorySearchSize, seg, idx, false);
      WriteOnceFlat(before, seg, idx, c, value);
      StoreOnce(segments[seg], idx - offset, c, value);
      assert Contents(segments) == before[seg := WriteOnce(before[seg], c, idx - offset, value)];
      assert Contents(segments)[..seg] == before[..seg];
      WrittenBytes(old(Memory()), c, idx, value);
    }

    /** The item at `idx` lies in the segment `seg`, which starts at `offset`. */
    ghost predicate Placed(w: Width, seg: nat, idx: nat, offset: nat)
      reads this, segments
    {
      && Aligned(idx, w) && idx + BytesPerItem(w) <= totalMemorySize
      && seg < |segments| && Holds(Contents(segments), seg, idx) && offset == Offset(Contents(segments), seg)
    }

    /** One iteration of the repeat loop: a write, then, for whole bytes, the step to the next value and address. */
    method RepeatOnce(c: Cheat, seg: nat, idx: nat, offset: nat, value: word)
      returns (nextSeg: nat, nextIdx: nat, nextOffset: nat, nextValue: word)
      requires Valid() && Fits(c, totalMemorySize) && WholeSegments(segments, c.memorySearchSize)
      requires Placed(c.memorySearchSize, seg, idx, offset)
      modifies segments
      ensures Valid() && idx + BytesPerItem(c.memorySearchSize) <= |old(Memory())|
      ensures Memory() == WriteOnce(old(Memory()), c, idx, value)
      ensures c.memorySearchSize >= 3 ==>
                && nextIdx == NextAddress(c, idx, totalMemorySize) && nextValue == NextValue(c, value)
                && Placed(c.memorySearchSize, nextSeg, nextIdx, nextOffset)
    {
      hide Flat, Contents, Aligned, WriteOnce, NextValue, NextAddress, ItemMask;
      nextSeg, nextIdx, nextOffset, nextValue := seg, idx, offset, value;
      WriteAt(seg, idx, offset, c, value);
      if BitsPerPart(c.memorySearchSize) == 8 {
        nextIdx, nextValue := NextIteration(c, idx, value, totalMemorySize);
        WholeFlat(Contents(segments), c.memorySearchSize);
        NextAddressFits(c, idx, totalMemorySize);
        nextSeg, nextOffset := TranslateAddress(nextIdx);
      }
    }

    /** The repeat loop of one SET, INCREASE or DECREASE cheat. */
    method ApplyRepeats(c: Cheat, valueToSet: word)
      requires Valid() && Fits(c, totalMemorySize) && WholeSegments(segments, c.memorySearchSize)
      modifies segments
      ensures Valid() && Memory() == Repeat(old(Memory()), c, valueToSet, c.repeatCount)
    {
      hide Flat, Contents, Aligned, WriteOnce, NextValue, NextAddress, ItemMask;
      ghost var mem := Memory();
      var idx: nat, value := c.address, valueToSet;
      var seg, offset := TranslateAddress(idx);
      var repeatIter := 1;
      assert Placed(c.memorySearchSize, seg, idx, offset);
      hide Placed;
      while repeatIter <= c.repeatCount
        invariant 1 <= repeatIter <= c.repeatCount + 1 && Valid() && 0 <= idx && 0 <= seg && 0 <= offset
        invariant Memory() == Repeat(mem, c, valueToSet, repeatIter - 1)
        invariant repeatIter <= c.repeatCount ==>
                    && idx == AddressAt(c, |mem|, repeatIter - 1) && value == ValueAt(c, valueToSet, repeatIter - 1)
                    && Placed(c.memorySearchSize, seg, idx, offset)
      {
        seg, idx, offset, value := RepeatOnce(c, seg, idx, offset, value);
        repeatIter := repeatIter + 1;
      }
    }

    /**
     * One active cheat: reads its item with the search's byte order, then writes, or decides whether the next cheat
     * runs.
     */
    method ApplyCheat(c: Cheat) returns (runCheat: bool)
      requires Valid() && Fits(c, totalMemorySize) && WholeSegments(segments, c.memorySearchSize)
      modifies segments
      ensures Valid() && Memory() == Apply(old(Memory()), c, bigEndian)
      ensures runCheat == !SkipsNext(c, old(ItemValue(Memory(), c.address, c.memorySearchSize, bigEndian)))
      ensures var item := old(ItemValue(Memory(), c.address, c.memorySearchSize, bigEndian));
              && (c.cheatType == 4 ==> (runCheat <==> c.value == item))
              && (c.cheatType == 5 ==> (runCheat <==> c.value != item))
              && (c.cheatType == 6 ==> (runCheat <==> c.value < item))
              && (c.cheatType == 7 ==> (runCheat <==> c.value > item))
              && (c.cheatType < 4 || c.cheatType > 7 ==> runCheat)
      ensures c.cheatType < 1 || c.cheatType > 3 ==> Memory() == old(Memory())
    {
      hide Flat, Contents, Aligned, ItemValue, Repeat;
      var currVal := ReadItem(c.address, c.memorySearchSize, bigEndian);
      runCheat := true;
      if c.cheatType == SET_TO_VALUE {
        ApplyRepeats(c, c.value);
      } else if c.cheatType == INCREASE_VALUE {
        ApplyRepeats(c, Wrap(currVal + c.value));
      } else if c.cheatType == DECREASE_VALUE {
        ApplyRepeats(c, Wrap(currVal - c.value));
      } else if c.cheatType == RUN_NEXT_IF_EQ {
        runCheat := currVal == c.value;
      } else if c.cheatType == RUN_NEXT_IF_NEQ {
        runCheat := currVal != c.value;
      } else if c.cheatType == RUN_NEXT_IF_LT {
        runCheat := c.value < currVal;
      } else if c.cheatType == RUN_NEXT_IF_GT {
        runCheat := c.value > currVal;
      }
    }

    /**
     * The segments a pass over the cheats acts on: the ones there, or the ones the first active cheat's
     * initialisation finds.
     */
    ghost function Patched(descriptors: seq<Descriptor>, systemRam: array?<byte>): seq<array<byte>>
      reads this
    {
      if memoryInitialized then segments else FoundSegments(descriptors, systemRam)
    }

    /** The memory is what the active cheats make of `mem`. */
    ghost predicate Applied(mem: seq<byte>)
      reads this, segments
    {
      && |mem| < WORD_SIZE && (forall c | c in ActiveOnly(cheats) :: Fits(c, |mem|))
      && Memory() == RunCheats(mem, ActiveOnly(cheats), bigEndian)
    }

    /** The active cheats, started on memory `mem`, have come this far, with `todo` still to run. */
    ghost predicate Running(mem: seq<byte>, todo: seq<Cheat>)
      reads this, segments
    {
      && |Memory()| == |mem| < WORD_SIZE
      && (forall c | c in ActiveOnly(cheats) :: Fits(c, |mem|)) && (forall c | c in todo :: Fits(c, |mem|))
      && RunCheats(mem, ActiveOnly(cheats), bigEndian) == RunCheats(Memory(), todo, bigEndian)
    }

    lemma StartRunning()
      requires ActiveFit(cheats, segments, |Memory()|) && |Memory()| < WORD_SIZE
      ensures Running(Memory(), Pending(true, ActiveOnly(cheats)))
    {
      hide Flat, Contents, RunCheats, ActiveOnly, Fits;
    }

    lemma DoneRunning(mem: seq<byte>)
      requires Running(mem, [])
      ensures Applied(mem) && (ActiveOnly(cheats) == [] ==> Memory() == mem)
    {
      hide Flat, Contents, ActiveOnly;
      RunNone(Memory(), bigEndian);
      RunNone(mem, bigEndian);
    }

    /** The turn of the active cheat at index `i`. */
    method RunActive(i: nat, runNow: bool, ghost mem: seq<byte>) returns (runCheat: bool)
      requires Valid() && i < |cheats| && IsActive(cheats[i]) && ActiveFit(cheats, segments, totalMemorySize)
      requires Running(mem, Pending(runNow, ActiveOnly(cheats[i..])))
      modifies segments
      ensures Valid() && Running(mem, Pending(runCheat, ActiveOnly(cheats[i + 1..])))
    {
      hide Flat, Contents, Aligned, ItemValue, Apply, RunCheats, SkipsNext, ActiveOnly, Fits;
      ActiveStep(cheats, i);
      if !runNow {
        runCheat := true;
      } else {
        RunStep(Memory(), cheats[i], ActiveOnly(cheats[i + 1..]), bigEndian);
        runCheat := ApplyCheat(cheats[i]);
      }
    }

    /** The lazy initialisation: does nothing once the memory is initialised. */
    method EnsureInitialized(descriptors: seq<Descriptor>, systemRam: array?<byte>)
      requires Valid()
      requires !memoryInitialized ==> Usable(FoundSegments(descriptors, systemRam))
      modifies this`segments, this`totalMemorySize, this`numMatches, this`prevMemory, this`matches,
          this`memoryInitialized
      ensures Valid() && (old(memoryInitialized) ==> unchanged(this))
      ensures segments == old(Patched(descriptors, systemRam))
          && Memory() == old(Flat(Contents(Patched(descriptors, systemRam))))
      ensures memoryInitialized == (old(memoryInitialized) || segments != [])
    {
      hide Flat, Contents, FoundSegments, StartingMatches;
      if !memoryInitialized {
        InitializeMemory(descriptors, systemRam, false);
      }
    }

    /**
     * `cheat_manager_apply_retro_cheats`: runs the active cheats in order; the first one initialises the memory if
     * that has not been done.
     */
    method ApplyRetroCheats(descriptors: seq<Descriptor>, systemRam: array?<byte>)
      requires Valid()
      requires !memoryInitialized ==> Usable(FoundSegments(descriptors, systemRam))
      requires var segs := Patched(descriptors, systemRam);
               segs != [] || memoryInitialized ==> ActiveFit(cheats, segs, |Flat(Contents(segs))|)
      modifies this`segments, this`totalMemorySize, this`numMatches, this`prevMemory, this`matches,
          this`memoryInitialized
      modifies segments, FoundSegments(descriptors, systemRam)
      ensures Valid() && cheats == old(cheats)
      ensures ActiveOnly(cheats) == [] ==> unchanged(this) && Memory() == old(Memory())
      ensures ActiveOnly(cheats) != [] ==> segments == old(Patched(descriptors, systemRam))
      ensures old(memoryInitialized) ==> unchanged(this)
      ensures ActiveOnly(cheats) != [] && memoryInitialized ==> Applied(old(Flat(Contents(Patched(descriptors,
          systemRam)))))
    {
      hide Flat, Contents, RunCheats, ActiveOnly, Fits, FoundSegments, ActiveFit, Running, WholeSegments;
      ghost var segs := Patched(descriptors, systemRam);
      ghost var mem, all := Flat(Contents(segs)), ActiveOnly(cheats);
      var runCheat := true;
      var i := 0;
      assert cheats[0..] == cheats;
      if memoryInitialized {
        StartRunning();
      }
      while i < |cheats|
        invariant i <= |cheats| && Valid() && (old(memoryInitialized) ==> unchanged(this))
        invariant all == [] ==> ActiveOnly(cheats[i..]) == [] && memoryInitialized == old(memoryInitialized)
        invariant !memoryInitialized ==> unchanged(this) && runCheat && ActiveOnly(cheats[i..]) == all
        invariant !memoryInitialized ==> Memory() == old(Memory()) && Flat(Contents(segs)) == mem
        invariant memoryInitialized ==> segments == segs && ActiveFit(cheats, segs, totalMemorySize)
        invariant memoryInitialized ==> Running(mem, Pending(runCheat, ActiveOnly(cheats[i..])))
      {
        ActiveStep(cheats, i);
        if IsActive(cheats[i]) {
          ghost var running := memoryInitialized;
          EnsureInitialized(descriptors, systemRam);
          if !running && memoryInitialized {
            StartRunning();
          }
          if !memoryInitialized {
            return;
          }
          runCheat := RunActive(i, runCheat, mem);
        }
        i := i + 1;
      }
      assert cheats[i..] == [];
      NoActive();
      if memoryInitialized {
        DoneRunning(mem);
      }
    }

    /**
     * The core announces its memory map: once the memory has been initialised, it is initialised again without
     * starting a search, and the cheats are applied. Whatever segments are found, the search buffers stay and the
     * counter becomes the number of slots of the new memory; without any segment the counter stays too.
     */
    method SetMemoryMaps(descriptors: seq<Descriptor>, systemRam: array?<byte>)
      requires Valid()
      requires memoryInitialized ==> Usable(FoundSegments(descriptors, systemRam))
      requires memoryInitialized ==> ActiveFit(cheats, FoundSegments(descriptors, systemRam),
                                               |Flat(Contents(FoundSegments(descriptors, systemRam)))|)
      modifies this`segments, this`totalMemorySize, this`numMatches, this`prevMemory, this`matches,
          this`memoryInitialized
      modifies FoundSegments(descriptors, systemRam)
      ensures Valid() && cheats == old(cheats) && (!old(memoryInitialized) ==> unchanged(this))
      ensures old(memoryInitialized) ==> memoryInitialized && segments == FoundSegments(descriptors, systemRam)
      ensures old(memoryInitialized) && ActiveOnly(cheats) == [] ==>
                Memory() == old(Flat(Contents(FoundSegments(descriptors, systemRam))))
      ensures old(memoryInitialized) && ActiveOnly(cheats) != [] ==>
                Applied(old(Flat(Contents(FoundSegments(descriptors, systemRam)))))
      ensures prevMemory == old(prevMemory) && matches == old(matches)
      ensures old(memoryInitialized) && segments != [] ==>
                numMatches == SlotCount(searchBitSize, totalMemorySize)
                && (prevMemory != null ==> Recounted(old(SearchState())))
      ensures old(memoryInitialized) && segments == [] ==>
                numMatches == old(numMatches) && (prevMemory != null ==> SearchState() == old(SearchState()))
      ensures old(Searching() && segments == FoundSegments(descriptors, systemRam)) ==> Searching()
    {
      hide Flat, Contents, FoundSegments, RunCheats, ActiveOnly, StartingMatches, ActiveFit, Recount, LiveSlots,
          SlotCount, Applied;
      if memoryInitialized {
        InitializeMemory(descriptors, systemRam, false);
        StartingCount(searchBitSize, totalMemorySize);
        ghost var ms := if matches == null then [] else matches[..];
        ghost var prev := if prevMemory == null then [] else prevMemory[..];
        ApplyRetroCheats(descriptors, systemRam);
        assert matches != null ==> matches[..] == ms && prevMemory[..] == prev;
      }
    }

    // ---- cheat files ----

    /** `cheat_manager_new`: frees the memory lists and search buffers and starts a list of `size` default entries. */
    method NewList(size: nat)
      modifies this`cheats, this`segments, this`totalMemorySize, this`prevMemory, this`matches,
          this`memoryInitialized, this`searchBitSize
      ensures Valid() && segments == [] && prevMemory == null && !memoryInitialized && searchBitSize == 3
      ensures |cheats| == size && forall i | 0 <= i < size :: cheats[i] == ZERO_CHEAT.(repeatCount := 1,
          repeatAddToAddress := 1)
    {
      NoMemory();
      segments, totalMemorySize, prevMemory, matches, memoryInitialized := [], 0, null, null, false;
      searchBitSize := 3;
      cheats := [];
      var i := 0;
      while i < size
        modifies this`cheats
        invariant 0 <= i <= size && |cheats| == i
        invariant forall k | 0 <= k < i :: cheats[k] == ZERO_CHEAT.(repeatCount := 1, repeatAddToAddress := 1)
      {
        cheats := cheats + [ZERO_CHEAT.(repeatCount := 1, repeatAddToValue := 0, repeatAddToAddress := 1)];
        i := i + 1;
      }
    }

    /** Writes the entries of one cheat: description, code and flags, then the sixteen numbers from the key table. */
    method SaveEntry(conf: seq<CheatFile.Entry>, i: nat) returns (r: seq<CheatFile.Entry>)
      requires i < |cheats| < WORD_SIZE
      ensures r == conf + CheatFile.CheatEntries(i, cheats[i], |CheatFile.FIELDS|)
    {
      hide CheatFile.Key, CheatFile.Saved;
      var c := cheats[i];
      ghost var done: seq<CheatFile.Entry> := [];
      r := conf;
      assert r == conf + done;
      var j := 0;
      while j < |CheatFile.FIELDS|
        invariant 0 <= j <= |CheatFile.FIELDS| && done == CheatFile.CheatEntries(i, c, j) && r == conf + done
      {
        var f := CheatFile.FIELDS[j];
        var value := CheatFile.Saved(c, f);
        if value.Some? {
          r := r + [CheatFile.Entry(CheatFile.Key(i, f), value.value)];
          done := done + [CheatFile.Entry(CheatFile.Key(i, f), value.value)];
        }
        j := j + 1;
      }
    }

    /** `cheat_manager_save` into a fresh config: the entries written, or none for an empty list. */
    method SaveCheats() returns (saved: bool, conf: seq<CheatFile.Entry>)
      requires |cheats| < WORD_SIZE
      ensures saved == (cheats != [])
      ensures saved ==> conf == CheatFile.FileEntries(cheats, |cheats|)
    {
      hide CheatFile.Key, CheatFile.Saved, CheatFile.CheatEntries;
      conf, saved := [], |cheats| != 0;
      if |cheats| == 0 {
        return;
      }
      conf := [CheatFile.Entry("cheats", Digits(|cheats|, 10, false))];
      var i := 0;
      while i < |cheats|
        invariant 0 <= i <= |cheats| && conf == CheatFile.FileEntries(cheats, i)
      {
        conf := SaveEntry(conf, i);
        i := i + 1;
      }
    }

    /** `cheat_manager_load_cb_first_pass` */
    method LoadFirstPass(key: string, value: string)
      modifies this`loadingCheatSize
      ensures loadingCheatSize == if key == "cheats" then CheatFile.CountOf(value) else old(loadingCheatSize)
    {
      if key == "cheats" {
        loadingCheatSize := Wrap(Strtoul(value, 0).value);
        if OutOfRange(value, 0) {
          loadingCheatSize := 0;
        }
      }
    }

    /** `cheat_manager_load_cb_second_pass` */
    method LoadSecondPass(key: string, value: string)
      modifies this`cheats
      ensures cheats == CheatFile.LoadEntry(old(cheats), CheatFile.Entry(key, value), loadingCheatOffset)
    {
      hide Strtoul, CheatFile.FieldNamed, CheatFile.SetField;
      if !("cheat" <= key) || |key| == 5 {
        return;
      }
      var num := Strtoul(key[5..], 10);
      var cheatNum := Wrap(num.value);
      if num.end == 0 || 5 + num.end == |key| {
        return;
      }
      if Wrap(cheatNum + loadingCheatOffset) >= |cheats| {
        return;
      }
      var name := key[5 + num.end + 1..];
      var index := Wrap(cheatNum + loadingCheatOffset);
      var field := CheatFile.FieldNamed(name);
      if field.Some? {
        cheats := cheats[index := CheatFile.SetField(cheats[index], field.value, value)];
      }
    }

    /** The second pass over a file. */
    method ApplyEntries(entries: seq<CheatFile.Entry>)
      modifies this`cheats
      ensures cheats == CheatFile.LoadEntries(old(cheats), entries, loadingCheatOffset)
    {
      hide CheatFile.LoadEntry;
      ghost var blanks := cheats;
      var k := 0;
      while k < |entries|
        invariant 0 <= k <= |entries| && cheats == CheatFile.LoadEntries(blanks, entries[..k], loadingCheatOffset)
      {
        assert entries[..k + 1][..k] == entries[..k];
        LoadSecondPass(entries[k].key, entries[k].value);
        k := k + 1;
      }
      assert entries[..k] == entries;
    }

    /** The first pass over a file. */
    method CountEntries(entries: seq<CheatFile.Entry>)
      requires loadingCheatSize == 0
      modifies this`loadingCheatSize
      ensures loadingCheatSize == CheatFile.CountAnnounced(entries)
    {
      hide CheatFile.CountOf;
      var k := 0;
      while k < |entries|
        invariant 0 <= k <= |entries| && loadingCheatSize == CheatFile.CountAnnounced(entries[..k])
      {
        assert entries[..k + 1][..k] == entries[..k];
        LoadFirstPass(entries[k].key, entries[k].value);
        k := k + 1;
      }
      assert entries[..k] == entries;
    }

    /** The loop of a load that resets the entries about to be filled. */
    method ResetFrom(origSize: nat, end: nat)
      requires origSize <= end == |cheats|
      requires forall i | origSize <= i < end ::
                 cheats[i] == ZERO_CHEAT.(repeatCount := 1, repeatAddToAddress := 1)
                     || cheats[i] == FreshCheat(Wrap(i), HANDLER_EMU)
      modifies this`cheats
      ensures |cheats| == end && cheats[..origSize] == old(cheats[..origSize])
      ensures forall i | origSize <= i < end :: cheats[i] == CheatFile.BlankCheat(i)
    {
      var i := origSize;
      while i < end
        invariant origSize <= i <= end == |cheats| && cheats[..origSize] == old(cheats[..origSize])
        invariant forall k | i <= k < end :: cheats[k] == old(cheats[k])
        invariant forall k | origSize <= k < i :: cheats[k] == CheatFile.BlankCheat(k)
      {
        cheats := cheats[i := cheats[i].(idx := Wrap(i), desc := None, code := None, state := false, bigEndian := false,
                                         cheatType := SET_TO_VALUE, memorySearchSize := 3)];
        i := i + 1;
      }
    }

    /** The part of a load that keeps the first `origSize` cheats, if any, and makes `count` blank ones after them. */
    method MakeRoom(origSize: nat, count: nat)
      requires Valid() && (origSize == 0 || origSize == |cheats|)
      modifies this
      ensures Valid() && loadingCheatSize == old(loadingCheatSize)
      ensures cheats == CheatFile.Blanks(old(cheats[..origSize]), count)
    {
      hide CheatFile.BlankCheat, Flat, Contents, FreshCheat;
      ghost var earlier := cheats[..origSize];
      if origSize == 0 {
        NewList(count);
      } else {
        Realloc(origSize + count, HANDLER_EMU);
      }
      assert cheats[..origSize] == earlier;
      ResetFrom(origSize, origSize + count);
      BlanksAre(cheats, earlier, count);
    }

    /**
     * `cheat_manager_load`: reads the count, makes room, resets the new entries, then applies the file entry by
     * entry.
     */
    method LoadCheats(file: Option<seq<CheatFile.Entry>>, append: bool) returns (loaded: bool)
      requires Valid() && (file.Some? ==> |cheats| + CheatFile.CountAnnounced(file.value) < WORD_SIZE)
      modifies this
      ensures Valid()
      ensures loaded == (file.Some? && CheatFile.CountAnnounced(file.value) != 0)
      ensures !loaded ==> cheats == old(cheats)
      ensures loaded ==>
                var earlier := if append then old(cheats) else [];
                |earlier| < WORD_SIZE
                && cheats == CheatFile.LoadEntries(CheatFile.Blanks(earlier, CheatFile.CountAnnounced(file.value)),
                    file.value, |earlier|)
    {
      hide CheatFile.LoadEntries, CheatFile.CountAnnounced, CheatFile.BlankCheat, Strtoul, Flat, Contents, FreshCheat;
      loaded := false;
      loadingCheatSize := 0;
      if file.None? {
        return;
      }
      var entries := file.value;
      CountEntries(entries);
      if loadingCheatSize == 0 {
        return;
      }
      var origSize := if append then |cheats| else 0;
      assert cheats[..origSize] == if append then cheats else [];
      MakeRoom(origSize, loadingCheatSize);
      loadingCheatOffset := origSize;
      ApplyEntries(entries);
      loaded := true;
    }
  }
}
