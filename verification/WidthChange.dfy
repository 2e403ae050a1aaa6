/**
 * Changing the search width in the middle of a session: the match bits are read as slots of another size while the
 * counter stays. When the counter is still right.
 */
module WidthChange {
  import opened Words
  import opened Slots
  import opened SearchSession
  import opened CheatEngine

  // ---- match bits read at two widths ----

  /** Some bit of the byte in the range is one. */
  predicate SomeBit(b: byte, lo: nat, hi: nat) {
    exists t: nat :: lo <= t < hi && BitSet(b, t)
  }

  lemma NonzeroByte(b: byte)
    ensures b > 0 <==> SomeBit(b, 0, 8)
  {
    hide BitSet;
    if b > 0 && !SomeBit(b, 0, 8) {
      forall t: nat | t < 8
        ensures BitSet(b, t) == BitSet(0, t)
      {
        ZeroBits(t);
      }
      EqualBytes(b, 0);
    }
    if SomeBit(b, 0, 8) {
      var t: nat :| 0 <= t < 8 && BitSet(b, t);
      ZeroBits(t);
    }
  }

  lemma GroupNonzero(b: byte, w: Width, part: nat)
    requires w < 3 && part < Parts(w)
    ensures And(b, GroupMask(w, part)) > 0
            <==> SomeBit(b, part * BitsPerPart(w), part * BitsPerPart(w) + BitsPerPart(w))
  {
    hide BitSet, GroupMask, And;
    var lo, bits, x := part * BitsPerPart(w), BitsPerPart(w), And(b, GroupMask(w, part));
    assert lo + bits <= 8;
    NonzeroByte(x);
    forall t: nat
      ensures BitSet(x, t) <==> BitSet(b, t) && lo <= t < lo + bits
    {
      AndBits(b, GroupMask(w, part), t);
      GroupMaskBits(w, part, t);
    }
    if SomeBit(x, 0, 8) {
      var t: nat :| 0 <= t < 8 && BitSet(x, t);
      assert BitSet(b, t);
    }
    if SomeBit(b, lo, lo + bits) {
      var t: nat :| lo <= t < lo + bits && BitSet(b, t);
      assert BitSet(x, t);
    }
  }

  lemma SlotLive(ms: seq<byte>, w: Width, j: nat)
    requires w <= 3 && j < SlotCount(w, |ms|)
    ensures SlotAddr(w, j) < |ms|
    ensures var lo, bits := SlotPart(w, j) * BitsPerPart(w), BitsPerPart(w);
            MatchBits(ms, w, j) > 0 <==> SomeBit(ms[SlotAddr(w, j)], lo, lo + bits)
  {
    hide GroupMask, And, SomeBit;
    SlotInRange(w, j, |ms|);
    if w < 3 {
      GroupNonzero(ms[SlotAddr(w, j)], w, SlotPart(w, j));
    } else {
      NonzeroByte(ms[SlotAddr(w, j)]);
    }
  }

  lemma SplitRange(b: byte, lo: nat, n: nat)
    ensures SomeBit(b, lo, lo + 2 * n) <==> SomeBit(b, lo, lo + n) || SomeBit(b, lo + n, lo + 2 * n)
  {
    hide BitSet;
  }

  /** Where the two halves of a slot are. */
  lemma Halves(w: Width, j: nat, total: nat)
    requires w < 5 && j < SlotCount(w + 1, total)
    ensures 2 * j + 1 < SlotCount(w, total)
    ensures w < 3 ==> SlotAddr(w, 2 * j) == SlotAddr(w, 2 * j + 1) == SlotAddr(w + 1, j)
                      && SlotPart(w, 2 * j) == 2 * SlotPart(w + 1, j)
                      && SlotPart(w, 2 * j + 1) == 2 * SlotPart(w + 1, j) + 1
                      && BitsPerPart(w + 1) == 2 * BitsPerPart(w)
    ensures w >= 3 ==> SlotAddr(w, 2 * j) == SlotAddr(w + 1, j)
                       && SlotAddr(w, 2 * j + 1) == SlotAddr(w + 1, j) + BytesPerItem(w)
                       && BytesPerItem(w + 1) == 2 * BytesPerItem(w)
  {
  }

  lemma RangeOfPart(q: nat, bits: nat)
    ensures (2 * q) * bits == q * (2 * bits) && (2 * q + 1) * bits == q * (2 * bits) + bits
  {
  }

  /** A slot of the next width is live when one of its halves is; of several bytes only the first is looked at. */
  lemma StepLive(ms: seq<byte>, w: Width, j: nat)
    requires w < 5 && j < SlotCount(w + 1, |ms|)
    ensures 2 * j + 1 < SlotCount(w, |ms|)
    ensures MatchBits(ms, w + 1, j) > 0
            <==> MatchBits(ms, w, 2 * j) > 0 || (w < 3 && MatchBits(ms, w, 2 * j + 1) > 0)
  {
    hide SlotAddr, SlotPart, SlotCount, FirstSlot, SomeBit;
    Halves(w, j, |ms|);
    if w < 3 {
      hide MatchBits;
      SlotLive(ms, w + 1, j);
      SlotLive(ms, w, 2 * j);
      SlotLive(ms, w, 2 * j + 1);
      var bits := BitsPerPart(w);
      RangeOfPart(SlotPart(w + 1, j), bits);
      SplitRange(ms[SlotAddr(w + 1, j)], SlotPart(w + 1, j) * (2 * bits), bits);
    } else {
      SlotInRange(w + 1, j, |ms|);
    }
  }

  /** The live slots of the next width, from those of this one. */
  function Joined(live: seq<bool>, w: Width): (r: seq<bool>)
    ensures |r| == |live| / 2
  {
    seq(|live| / 2, j requires 0 <= j < |live| / 2 => live[2 * j] || (w < 3 && live[2 * j + 1]))
  }

  lemma StepJoined(ms: seq<byte>, w: Width)
    requires w < 5 && Aligned(|ms|, w + 1)
    ensures |LiveSlots(ms, w)| == 2 * |LiveSlots(ms, w + 1)|
    ensures LiveSlots(ms, w + 1) == Joined(LiveSlots(ms, w), w)
  {
    hide MatchBits;
    forall j: nat | j < SlotCount(w + 1, |ms|)
      ensures LiveSlots(ms, w + 1)[j] == Joined(LiveSlots(ms, w), w)[j]
    {
      StepLive(ms, w, j);
    }
  }

  /** Pair `j` loses no slot: its halves are not both live, and the second is not live where it is not looked at. */
  predicate PairKept(live: seq<bool>, w: Width, j: nat)
    requires 2 * j + 1 < |live|
  {
    !(live[2 * j + 1] && (w >= 3 || live[2 * j]))
  }

  ghost predicate Unmerged(live: seq<bool>, w: Width) {
    forall j: nat | 2 * j + 1 < |live| :: PairKept(live, w, j)
  }

  lemma UnmergedStep(live: seq<bool>, w: Width)
    requires |live| % 2 == 0 && |live| >= 2
    ensures Unmerged(live, w)
            <==> Unmerged(live[..|live| - 2], w) && !(live[|live| - 1] && (w >= 3 || live[|live| - 2]))
  {
    var n := |live| - 2;
    var front := live[..n];
    assert PairKept(live, w, n / 2) <==> !(live[n + 1] && (w >= 3 || live[n]));
    forall j: nat | 2 * j + 1 < n
      ensures PairKept(front, w, j) <==> PairKept(live, w, j)
    {
    }
    assert forall j: nat | 2 * j + 1 < |live| :: 2 * j + 1 < n || j == n / 2;
  }

  lemma {:induction false} JoinedCount(live: seq<bool>, w: Width)
    requires |live| % 2 == 0
    ensures |Survivors(Joined(live, w))| <= |Survivors(live)|
    ensures |Survivors(Joined(live, w))| == |Survivors(live)| <==> Unmerged(live, w)
  {
    hide Survivors;
    if live == [] {
      NoSurvivors();
    } else {
      var n := |live| - 2;
      var front := live[..n];
      JoinedCount(front, w);
      SurvivorStep(live, n);
      SurvivorStep(live, n + 1);
      assert live[..n + 2] == live;
      var joined := Joined(live, w);
      SurvivorStep(joined, n / 2);
      assert joined[..n / 2 + 1] == joined && joined[..n / 2] == Joined(front, w);
      UnmergedStep(live, w);
    }
  }

  // ---- to a wider slot ----

  ghost predicate NothingMerged(ms: seq<byte>, w: Width, wider: Width) {
    forall k: Width | w <= k < wider :: Unmerged(LiveSlots(ms, k), k)
  }

  lemma AlignedBelow(n: nat, w: Width)
    requires w < 5 && Aligned(n, w + 1)
    ensures Aligned(n, w)
  {
    if w == 4 {
      assert n == 2 * (2 * (n / 4));
      ModUnique(n, 2, 2 * (n / 4), 0);
    }
  }

  /** Read at a wider width the same match bits never have more live slots, and as many exactly when none are merged. */
  lemma {:induction false} WiderExact(ms: seq<byte>, w: Width, wider: Width)
    requires w <= wider && Aligned(|ms|, wider)
    ensures |Survivors(LiveSlots(ms, wider))| <= |Survivors(LiveSlots(ms, w))|
    ensures |Survivors(LiveSlots(ms, wider))| == |Survivors(LiveSlots(ms, w))| <==> NothingMerged(ms, w, wider)
    decreases wider - w
  {
    hide LiveSlots, Survivors, Unmerged;
    if w < wider {
      var last: Width := wider - 1;
      AlignedBelow(|ms|, last);
      WiderExact(ms, w, last);
      StepJoined(ms, last);
      JoinedCount(LiveSlots(ms, last), last);
      assert NothingMerged(ms, w, wider) <==> NothingMerged(ms, w, last) && Unmerged(LiveSlots(ms, last), last);
    }
  }

  // ---- to a narrower slot ----

  /** A group of bits that is all ones or all zeros is so in both its halves. */
  lemma PackedGroup(b: byte, w: Width, q: nat, part: nat)
    requires w < 2 && q < Parts(w + 1) && (part == 2 * q || part == 2 * q + 1)
    requires And(b, GroupMask(w + 1, q)) == 0 || And(b, GroupMask(w + 1, q)) == GroupMask(w + 1, q)
    ensures part < Parts(w)
    ensures And(b, GroupMask(w, part)) == if And(b, GroupMask(w + 1, q)) == 0 then 0 else GroupMask(w, part)
  {
    hide BitSet, And, GroupMask;
    var big, small := GroupMask(w + 1, q), GroupMask(w, part);
    var x, y := And(b, small), if And(b, big) == 0 then 0 else small;
    RangeOfPart(q, BitsPerPart(w));
    forall t: nat | t < 8
      ensures BitSet(x, t) == BitSet(y, t)
    {
      AndBits(b, small, t);
      AndBits(b, big, t);
      GroupMaskBits(w, part, t);
      GroupMaskBits(w + 1, q, t);
      ZeroBits(t);
      assert BitSet(small, t) ==> BitSet(big, t);
    }
    EqualBytes(x, y);
  }

  lemma MaskPositive(w: Width, part: nat)
    requires w < 3 && part < Parts(w)
    ensures GroupMask(w, part) > 0
  {
    GroupMaskFits(w, part);
  }

  lemma PackedByte(b: byte, part: nat)
    requires (b == 0 || b == 0xFF) && part < 2
    ensures And(b, GroupMask(2, part)) == if b == 0 then 0 else GroupMask(2, part)
  {
    hide And, GroupMask;
    OnesValues();
    AndCommutes(b, GroupMask(2, part));
    if b == 0 {
      AndZero(GroupMask(2, part));
    } else {
      AndOnes(GroupMask(2, part), 8);
    }
  }

  /** Both halves of a packed slot are packed and live with it. */
  lemma PackedHalves(ms: seq<byte>, w: Width, j: nat)
    requires w < 5 && j < SlotCount(w + 1, |ms|) && SlotPacked(ms, w + 1, j)
    ensures 2 * j + 1 < SlotCount(w, |ms|)
    ensures SlotPacked(ms, w, 2 * j) && SlotPacked(ms, w, 2 * j + 1)
    ensures MatchBits(ms, w, 2 * j) > 0 <==> MatchBits(ms, w + 1, j) > 0
    ensures MatchBits(ms, w, 2 * j + 1) > 0 <==> MatchBits(ms, w + 1, j) > 0
  {
    hide SlotAddr, SlotPart, SlotCount, FirstSlot, And, GroupMask;
    Halves(w, j, |ms|);
    SlotInRange(w + 1, j, |ms|);
    SlotInRange(w, 2 * j, |ms|);
    SlotInRange(w, 2 * j + 1, |ms|);
    var a, q := SlotAddr(w + 1, j), SlotPart(w + 1, j);
    if w < 3 {
      MaskPositive(w, SlotPart(w, 2 * j));
      MaskPositive(w, SlotPart(w, 2 * j + 1));
    }
    if w < 2 {
      MaskPositive(w + 1, q);
      PackedGroup(ms[a], w, q, 2 * q);
      PackedGroup(ms[a], w, q, 2 * q + 1);
    } else if w == 2 {
      PackedByte(ms[a], SlotPart(w, 2 * j));
      PackedByte(ms[a], SlotPart(w, 2 * j + 1));
    }
  }

  lemma {:induction false} DoubledCount(live: seq<bool>, wide: seq<bool>)
    requires |live| == 2 * |wide| && forall j | 0 <= j < |wide| :: live[2 * j] == live[2 * j + 1] == wide[j]
    ensures |Survivors(live)| == 2 * |Survivors(wide)|
  {
    hide Survivors;
    if wide == [] {
      NoSurvivors();
    } else {
      var n := |wide| - 1;
      DoubledCount(live[..2 * n], wide[..n]);
      SurvivorStep(live, 2 * n);
      SurvivorStep(live, 2 * n + 1);
      SurvivorStep(wide, n);
      assert live[..2 * n + 2] == live && wide[..n + 1] == wide;
    }
  }

  /** Halving the width of packed match bits keeps them packed and doubles the number of live slots. */
  lemma NarrowStep(ms: seq<byte>, w: Width)
    requires w < 5 && Aligned(|ms|, w + 1) && WellPacked(ms, w + 1)
    ensures WellPacked(ms, w)
    ensures |Survivors(LiveSlots(ms, w))| == 2 * |Survivors(LiveSlots(ms, w + 1))|
  {
    hide MatchBits, SlotPacked;
    StepJoined(ms, w);
    var live, wide := LiveSlots(ms, w), LiveSlots(ms, w + 1);
    forall j: nat | j < SlotCount(w + 1, |ms|)
      ensures live[2 * j] == live[2 * j + 1] == wide[j] && SlotPacked(ms, w, 2 * j) && SlotPacked(ms, w, 2 * j + 1)
    {
      PackedHalves(ms, w, j);
    }
    forall i: nat | i < SlotCount(w, |ms|)
      ensures SlotPacked(ms, w, i)
    {
      assert i / 2 < SlotCount(w + 1, |ms|) && (i == 2 * (i / 2) || i == 2 * (i / 2) + 1);
    }
    DoubledCount(live, wide);
  }

  lemma {:induction false} ShlTwice(x: nat, n: nat)
    ensures Shl(2 * x, n) == Shl(x, n + 1)
    ensures Shl(x, n) >= x
  {
    if n > 0 {
      ShlTwice(x, n - 1);
    }
  }

  /** Read at a narrower width, packed match bits have twice as many live slots for every halving. */
  lemma {:induction false} NarrowerExact(ms: seq<byte>, w: Width, narrower: Width)
    requires narrower <= w && Aligned(|ms|, w) && WellPacked(ms, w)
    ensures WellPacked(ms, narrower)
    ensures |Survivors(LiveSlots(ms, narrower))| == Shl(|Survivors(LiveSlots(ms, w))|, w - narrower)
    decreases w - narrower
  {
    hide LiveSlots, Survivors, SlotPacked;
    if narrower < w {
      AlignedBelow(|ms|, w - 1);
      NarrowStep(ms, w - 1);
      NarrowerExact(ms, w - 1, narrower);
      ShlTwice(|Survivors(LiveSlots(ms, w))|, w - narrower - 1);
    }
  }

  // ---- on the manager ----

  lemma ShlGrows(x: nat, n: nat)
    requires n > 0
    ensures Shl(x, n) >= 2 * x
  {
    ShlTwice(x, n - 1);
  }

  /**
   * The menu's left and right on the search width, in a session with packed match bits and a right counter. The counter
   * is still right exactly when, going narrower, no slot is live; going wider, when no live slots are merged and none
   * lies in bytes the wider search does not look at.
   */
  method ChangeWidth(m: CheatManager, width: Width)
    requires m.Searching() && WellPacked(m.matches[..], m.searchBitSize) && WholeSegments(m.segments, width)
    requires m.numMatches == |Survivors(LiveSlots(m.matches[..], m.searchBitSize))|
    modifies m`searchBitSize
    ensures m.Searching() && m.searchBitSize == width
    ensures m.numMatches == |Survivors(LiveSlots(m.matches[..], width))|
            <==> if width < old(m.searchBitSize) then m.numMatches == 0
                 else NothingMerged(m.matches[..], old(m.searchBitSize), width)
    ensures width < old(m.searchBitSize) ==> WellPacked(m.matches[..], width)
  {
    hide LiveSlots, Survivors, SlotPacked, NothingMerged;
    ghost var w, ms := m.searchBitSize, m.matches[..];
    m.WholeMemory();
    m.searchBitSize := width;
    m.WholeMemory();
    if width < w {
      NarrowerExact(ms, w, width);
      ShlTwice(m.numMatches, w - width - 1);
      ShlTwice(m.numMatches, w - width);
      ShlZero(w - width);
      ShlGrows(m.numMatches, w - width);
    } else {
      WiderExact(ms, w, width);
    }
  }

  /** One byte with nothing dropped, narrowed from 8 to 4 bits: the counter stays 1 and two slots are live. */
  lemma NarrowerBreaksCount()
    ensures |Survivors(LiveSlots([0xFF], 3))| == 1 && |Survivors(LiveSlots([0xFF], 2))| == 2
  {
    AllLive([0xFF], 3);
    AllSurvive(LiveSlots([0xFF], 3));
    NarrowStep([0xFF], 2);
  }
}
