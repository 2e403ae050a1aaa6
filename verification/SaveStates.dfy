/** The ring of auto-indexed save states: directory scan, next slot, and deletion of the oldest state. */
module SaveStates {
  import opened Words

  const UINT_MAX: word := 0xFFFF_FFFF

  /** What a scan reports: the slot to load, and the slot of the file to remove, if any. */
  datatype ScanResult = ScanResult(lastIndex: word, deleteIndex: int)

  // ---- what the scan looks for ----

  function MaxSlot(files: seq<word>): word {
    if files == [] then 0
    else
      var rest, last := MaxSlot(files[..|files| - 1]), files[|files| - 1];
      if last > rest then last else rest
  }

  function CountInRange(files: seq<word>, maxKeep: word): nat {
    if files == [] then 0
    else CountInRange(files[..|files| - 1], maxKeep) + (if files[|files| - 1] <= maxKeep then 1 else 0)
  }

  /** `x` is the lowest free slot below `n`, or UINT_MAX when there is none. */
  predicate IsGap(files: seq<word>, n: nat, x: word) {
    && (forall i: word | i < n && i < x :: i in files)
    && (x != UINT_MAX ==> x < n && x !in files)
  }

  /** `x` is the lowest occupied slot below `n` and above the gap, or UINT_MAX when there is none. */
  predicate IsNextOccupied(files: seq<word>, n: nat, gap: word, x: word) {
    && (forall i: word | gap < i < n && i < x :: i !in files)
    && (x != UINT_MAX ==> gap < x < n && x in files)
  }

  lemma GapUnique(files: seq<word>, n: nat, x: word, y: word)
    requires n < UINT_MAX && IsGap(files, n, x) && IsGap(files, n, y)
    ensures x == y
  {
  }

  lemma NextOccupiedUnique(files: seq<word>, n: nat, gap: word, x: word, y: word)
    requires n < UINT_MAX && IsNextOccupied(files, n, gap, x) && IsNextOccupied(files, n, gap, y)
    ensures x == y
  {
  }

  /** The lowest free slot below `n`. */
  function GapBelow(files: seq<word>, n: nat): (x: word)
    requires n < UINT_MAX
    ensures IsGap(files, n, x)
  {
    if n == 0 then UINT_MAX
    else
      var x := GapBelow(files, n - 1);
      if x != UINT_MAX then x else if n - 1 in files then UINT_MAX else n - 1
  }

  /** The lowest occupied slot below `n` and above the gap. */
  function NextBelow(files: seq<word>, n: nat, gap: word): (x: word)
    requires n < UINT_MAX
    ensures IsNextOccupied(files, n, gap, x)
  {
    if n == 0 then UINT_MAX
    else
      var x := NextBelow(files, n - 1, gap);
      if x != UINT_MAX then x else if n - 1 in files && gap < n - 1 then n - 1 else UINT_MAX
  }

  /** The indices a scan settles on, from the counts, the gap and the first occupied slot after it. */
  function Decide(cnt: nat, cntInRange: nat, maxIdx: word, gap: word, del: word, maxKeep: word,
      currSlot: int): ScanResult
    requires maxKeep < UINT_MAX && -1 <= currSlot < UINT_MAX
  {
    var currUnsigned := Wrap(currSlot);
    var r: (word, word) :=
      if cntInRange == 0 then
        (if cnt == 0 then maxKeep else maxIdx, maxKeep)
      else if gap == UINT_MAX then
        if maxIdx > maxKeep then (maxIdx, 1)
        else if currUnsigned < maxKeep then (currUnsigned, currUnsigned + 1)
        else (maxKeep, 0)
      else
        (if gap == 0 then maxKeep else gap - 1, if del == UINT_MAX then 0 else del);
    ScanResult(r.0, if cntInRange >= maxKeep then r.1 else -1)
  }

  /** What a scan of these slots reports. */
  function Scan(files: seq<word>, maxKeep: word, currSlot: int): ScanResult
    requires maxKeep < 1024 && -1 <= currSlot < UINT_MAX
  {
    var gap := GapBelow(files, maxKeep + 1);
    Decide(|files|, CountInRange(files, maxKeep), MaxSlot(files), gap, NextBelow(files, maxKeep + 1, gap), maxKeep,
        currSlot)
  }

  lemma NoFiles(maxKeep: word)
    ensures MaxSlot([]) == 0 && CountInRange([], maxKeep) == 0
  {
  }

  /** One more file in the listing. */
  lemma ListingStep(files: seq<word>, k: nat, maxKeep: word)
    requires k < |files|
    ensures MaxSlot(files[..k + 1]) == if files[k] > MaxSlot(files[..k]) then files[k] else MaxSlot(files[..k])
    ensures CountInRange(files[..k + 1], maxKeep) == CountInRange(files[..k],
        maxKeep) + (if files[k] <= maxKeep then 1 else 0)
    ensures forall i: word :: i in files[..k + 1] <==> i in files[..k] || i == files[k]
  {
    assert files[..k + 1][..k] == files[..k];
    assert files[..k + 1] == files[..k] + [files[k]];
  }

  /** First pass: counts, maximum and bitmaps of the occupied slots, in listing order. */
  method ReadDirectory(files: seq<word>, maxKeep: word)
    returns (slotMappingLow: array<bool>, slotMappingHigh: array<bool>, maxIdx: word, cnt: nat, cntInRange: nat)
    ensures slotMappingLow.Length == 512 && slotMappingHigh.Length == 512
    ensures forall i | 0 <= i < 512 :: slotMappingLow[i] <==> i in files
    ensures forall i | 0 <= i < 512 :: slotMappingHigh[i] <==> i + 512 in files
    ensures maxIdx == MaxSlot(files) && cnt == |files| && cntInRange == CountInRange(files, maxKeep)
  {
    hide MaxSlot, CountInRange;
    slotMappingLow, slotMappingHigh := new bool[512](_ => false), new bool[512](_ => false);
    NoFiles(maxKeep);
    maxIdx, cnt, cntInRange := 0, 0, 0;
    var k := 0;
    while k < |files|
      invariant 0 <= k <= |files| && cnt == k
      invariant maxIdx == MaxSlot(files[..k]) && cntInRange == CountInRange(files[..k], maxKeep)
      invariant forall i | 0 <= i < 512 :: slotMappingLow[i] <==> i in files[..k]
      invariant forall i | 0 <= i < 512 :: slotMappingHigh[i] <==> i + 512 in files[..k]
    {
      var idx := files[k];
      ListingStep(files, k, maxKeep);
      if idx > maxIdx {
        maxIdx := idx;
      }
      cnt := cnt + 1;
      if idx <= maxKeep {
        cntInRange := cntInRange + 1;
      }
      if idx < 512 {
        slotMappingLow[idx] := true;
      } else if idx < 1024 {
        slotMappingHigh[idx - 512] := true;
      }
      k := k + 1;
    }
    assert files[..k] == files;
  }

  /** Second pass, over the bitmaps: the lowest free slot in range, and the first occupied one after it. */
  method FindGap(slotMappingLow: array<bool>, slotMappingHigh: array<bool>, maxKeep: word, ghost files: seq<word>)
    returns (gapIdx: word, delIdx: word)
    requires maxKeep < 1024 && slotMappingLow.Length == 512 && slotMappingHigh.Length == 512
    requires forall i | 0 <= i < 512 :: slotMappingLow[i] <==> i in files
    requires forall i | 0 <= i < 512 :: slotMappingHigh[i] <==> i + 512 in files
    ensures IsGap(files, maxKeep + 1, gapIdx) && IsNextOccupied(files, maxKeep + 1, gapIdx, delIdx)
  {
    gapIdx, delIdx := UINT_MAX, UINT_MAX;
    var i: word := 0;
    while i <= maxKeep
      invariant i <= maxKeep + 1
      invariant IsGap(files, i, gapIdx) && IsNextOccupied(files, i, gapIdx, delIdx)
    {
      var occupied := if i < 512 then slotMappingLow[i] else slotMappingHigh[i - 512];
      assert occupied == (i in files);
      if !occupied {
        if gapIdx == UINT_MAX {
          gapIdx := i;
        }
      } else {
        if gapIdx < UINT_MAX && delIdx == UINT_MAX {
          delIdx := i;
        }
      }
      i := i + 1;
    }
  }

  /** `command_scan_states` on the slot numbers found in the directory, in listing order. */
  method ScanStates(files: seq<word>, maxKeep: word, currSlot: int) returns (r: ScanResult)
    requires maxKeep < 1024 && -1 <= currSlot < UINT_MAX
    ensures r == Scan(files, maxKeep, currSlot)
  {
    hide IsGap, IsNextOccupied, CountInRange, MaxSlot, GapBelow, NextBelow;
    var low, high, maxIdx, cnt, cntInRange := ReadDirectory(files, maxKeep);
    var gapIdx, delIdx := FindGap(low, high, maxKeep, files);
    GapUnique(files, maxKeep + 1, gapIdx, GapBelow(files, maxKeep + 1));
    NextOccupiedUnique(files, maxKeep + 1, gapIdx, delIdx, NextBelow(files, maxKeep + 1, gapIdx));
    var loaIdx: word := 0;
    if cntInRange == 0 {
      if cnt == 0 {
        loaIdx := maxKeep;
      } else {
        loaIdx := maxIdx;
      }
      gapIdx := maxKeep;
      delIdx := maxKeep;
    } else if gapIdx == UINT_MAX {
      if maxIdx > maxKeep {
        loaIdx := maxIdx;
        gapIdx := 1;
      } else if Wrap(currSlot) < maxKeep {
        loaIdx := currSlot;
        gapIdx := currSlot + 1;
      } else {
        loaIdx := maxKeep;
        gapIdx := 0;
      }
      delIdx := gapIdx;
    } else {
      if delIdx == UINT_MAX {
        delIdx := 0;
      }
      if gapIdx == 0 {
        loaIdx := maxKeep;
      } else {
        loaIdx := gapIdx - 1;
      }
    }
    r := ScanResult(loaIdx, if cntInRange >= maxKeep then delIdx else -1);
  }

  // ---- the ring ----

  /** The slot after `slot` in the ring 0..K. */
  function After(maxKeep: word, slot: int): int {
    if slot >= maxKeep then 0 else slot + 1
  }

  /** `slot` is the last save; the states present are slots 0..slot, or all of 0..K but the slot after it. */
  predicate RingShape(maxKeep: word, files: seq<word>, slot: int) {
    && 0 <= slot <= maxKeep
    && (|| (|files| == slot + 1 <= maxKeep && forall i: word :: i in files <==> i <= slot)
        || (|files| == maxKeep && forall i: word :: i in files <==> i <= maxKeep && i != After(maxKeep, slot)))
  }

  /** All of slots 0..K are occupied. */
  predicate FullRange(maxKeep: word, files: seq<word>) {
    |files| == maxKeep + 1 && forall i: word :: i in files <==> i <= maxKeep
  }

  /** `files` lists the states from the oldest save to the newest, one slot after the other round the ring. */
  predicate InSaveOrder(maxKeep: word, files: seq<word>, slot: int) {
    && (files != [] ==> files[|files| - 1] == slot)
    && forall k | 0 < k < |files| :: files[k] == After(maxKeep, files[k - 1])
  }

  lemma {:induction false} AllInRange(files: seq<word>, maxKeep: word)
    requires forall i | i in files :: i <= maxKeep
    ensures CountInRange(files, maxKeep) == |files| && MaxSlot(files) <= maxKeep
  {
    if files != [] {
      var front, last := files[..|files| - 1], files[|files| - 1];
      assert last in files && forall i | i in front :: i in files;
      AllInRange(front, maxKeep);
    }
  }

  /** Same files, listed in any order. */
  predicate ListingOf(listing: seq<word>, files: seq<word>) {
    multiset(listing) == multiset(files)
  }

  lemma ListingMembers(listing: seq<word>, files: seq<word>)
    requires ListingOf(listing, files)
    ensures |listing| == |files| && forall i: word :: i in listing <==> i in files
  {
    assert |multiset(listing)| == |multiset(files)|;
    forall i: word
      ensures i in listing <==> i in files
    {
      assert i in listing <==> i in multiset(listing);
      assert i in files <==> i in multiset(files);
    }
  }

  /**
   * A scan of the ring, whatever the listing order and whatever slot is set, finds the last save and names the slot
   * two after it for deletion.
   */
  lemma ScanOfRing(maxKeep: word, files: seq<word>, slot: int, listing: seq<word>, currSlot: int)
    requires 1 <= maxKeep < 1024 && -1 <= currSlot < UINT_MAX && RingShape(maxKeep, files, slot)
        && ListingOf(listing, files)
    ensures var r := Scan(listing, maxKeep, currSlot);
            && r.lastIndex == slot
            && r.deleteIndex == if |files| < maxKeep then -1 else After(maxKeep, After(maxKeep, slot))
  {
    ListingMembers(listing, files);
    AllInRange(listing, maxKeep);
    hide GapBelow, NextBelow;
    var g, gap := After(maxKeep, slot), GapBelow(listing, maxKeep + 1);
    var del := NextBelow(listing, maxKeep + 1, gap);
    GapUnique(listing, maxKeep + 1, gap, g);
    if |files| == maxKeep {
      var next := if g < maxKeep then g + 1 else UINT_MAX;
      assert IsNextOccupied(listing, maxKeep + 1, g, next);
      NextOccupiedUnique(listing, maxKeep + 1, g, del, next);
    }
  }

  /** Scanning the full range 0..K: nothing is free, so the slot after the current one is named. */
  lemma ScanOfFullRange(maxKeep: word, files: seq<word>, listing: seq<word>, currSlot: int)
    requires 1 <= maxKeep < 1024 && 0 <= currSlot <= maxKeep && ListingOf(listing, files)
    requires FullRange(maxKeep, files)
    ensures Scan(listing, maxKeep, currSlot) == ScanResult(currSlot, After(maxKeep, currSlot))
  {
    hide GapBelow, NextBelow;
    ListingMembers(listing, files);
    AllInRange(listing, maxKeep);
    GapUnique(listing, maxKeep + 1, GapBelow(listing, maxKeep + 1), UINT_MAX);
  }

  predicate DistinctSlots(files: seq<word>) {
    forall i, k | 0 <= i < k < |files| :: files[i] != files[k]
  }

  /** The list without slot `x`. */
  function Without(files: seq<word>, x: int): seq<word> {
    if files == [] then []
    else (if files[0] == x then [] else [files[0]]) + Without(files[1..], x)
  }

  lemma {:induction false} WithoutMembers(files: seq<word>, x: int)
    ensures forall i: word :: i in Without(files, x) <==> i in files && i != x
  {
    if files != [] {
      WithoutMembers(files[1..], x);
      assert files == [files[0]] + files[1..];
    }
  }

  lemma {:induction false} WithoutAbsent(files: seq<word>, x: int)
    requires x !in files
    ensures Without(files, x) == files
  {
    if files != [] {
      assert files[0] in files && forall i | i in files[1..] :: i in files;
      WithoutAbsent(files[1..], x);
    }
  }

  lemma {:induction false} WithoutLast(files: seq<word>, x: word)
    requires x !in files
    ensures Without(files + [x], x) == files
  {
    if files == [] {
      assert [] + [x] == [x];
    } else {
      assert files == [files[0]] + files[1..];
      WithoutLast(files[1..], x);
      assert (files + [x])[1..] == files[1..] + [x];
    }
  }

  lemma WithoutHead(files: seq<word>, x: int)
    requires files != []
    ensures files[0] == x ==> Without(files, x) == Without(files[1..], x)
    ensures files[0] != x ==> Without(files, x) == [files[0]] + Without(files[1..], x)
  {
  }

  lemma HeadApart(files: seq<word>)
    requires files != [] && DistinctSlots(files)
    ensures files[0] !in files[1..] && DistinctSlots(files[1..])
  {
  }

  lemma DistinctCons(x: word, rest: seq<word>)
    requires DistinctSlots(rest) && x !in rest
    ensures DistinctSlots([x] + rest)
  {
  }

  lemma {:induction false} WithoutPresent(files: seq<word>, x: int)
    requires DistinctSlots(files) && x in files
    ensures DistinctSlots(Without(files, x)) && |Without(files, x)| == |files| - 1
    ensures files[0] == x ==> Without(files, x) == files[1..]
  {
    hide Without, DistinctSlots;
    HeadApart(files);
    WithoutHead(files, x);
    if files[0] == x {
      WithoutAbsent(files[1..], x);
    } else {
      assert x in files[1..];
      WithoutPresent(files[1..], x);
      WithoutMembers(files[1..], x);
      DistinctCons(files[0], Without(files[1..], x));
    }
  }

  /** The directory after a save: the scan's file is removed, then slot `slot` is written and is the newest. */
  function AfterSave(files: seq<word>, del: int, slot: word): seq<word> {
    Without(if del >= 0 then Without(files, del) else files, slot) + [slot]
  }

  lemma WithoutDistinct(files: seq<word>, x: int)
    requires DistinctSlots(files)
    ensures DistinctSlots(Without(files, x))
    ensures |Without(files, x)| == if x in files then |files| - 1 else |files|
  {
    if x in files {
      WithoutPresent(files, x);
    } else {
      WithoutAbsent(files, x);
    }
  }

  /** Taking a slot out keeps the order of the others. */
  lemma {:induction false} WithoutOrder(a: seq<word>, x: word, b: seq<word>)
    requires x !in a && x !in b
    ensures Without(a + [x] + b, x) == a + b
  {
    if a == [] {
      assert [] + [x] + b == [x] + b && ([x] + b)[1..] == b;
      WithoutAbsent(b, x);
    } else {
      assert forall i | i in a[1..] :: i in a;
      WithoutOrder(a[1..], x, b);
      assert (a + [x] + b)[1..] == a[1..] + [x] + b;
      assert [a[0]] + (a[1..] + b) == a + b;
    }
  }

  lemma AfterSaveMembers(files: seq<word>, del: int, slot: word)
    requires DistinctSlots(files)
    ensures DistinctSlots(AfterSave(files, del, slot))
    ensures forall i: word :: i in AfterSave(files, del, slot) <==> i == slot || (i in files && i != del)
    ensures del in files && slot !in files ==> |AfterSave(files, del, slot)| == |files|
    ensures del == slot && slot in files ==> |AfterSave(files, del, slot)| == |files|
    ensures del in files && slot in files && del != slot ==> |AfterSave(files, del, slot)| == |files| - 1
    ensures del < 0 && slot !in files ==> |AfterSave(files, del, slot)| == |files| + 1
  {
    var kept := if del >= 0 then Without(files, del) else files;
    WithoutMembers(files, del);
    WithoutDistinct(files, del);
    WithoutMembers(kept, slot);
    WithoutDistinct(kept, slot);
    var left := Without(kept, slot);
    forall k | 0 <= k < |left|
      ensures left[k] != slot
    {
      assert left[k] in left;
    }
  }

  /** The ring keeps its shape through a save. */
  lemma RingStep(maxKeep: word, files: seq<word>, slot: int, del: int)
    requires 1 <= maxKeep < 1024 && DistinctSlots(files) && RingShape(maxKeep, files, slot)
    requires del == if |files| < maxKeep then -1 else After(maxKeep, After(maxKeep, slot))
    ensures RingShape(maxKeep, AfterSave(files, del, After(maxKeep, slot)), After(maxKeep, slot))
  {
    AfterSaveMembers(files, del, After(maxKeep, slot));
  }

  /** Dropping the oldest save keeps save order. */
  lemma OrderTail(maxKeep: word, files: seq<word>, slot: int)
    requires InSaveOrder(maxKeep, files, slot) && files != []
    ensures InSaveOrder(maxKeep, files[1..], slot)
  {
    var rest := files[1..];
    assert forall k | 0 <= k < |rest| :: rest[k] == files[k + 1];
    forall k | 0 < k < |rest|
      ensures rest[k] == After(maxKeep, rest[k - 1])
    {
      assert files[k + 1] == After(maxKeep, files[k]);
    }
  }

  lemma OrderShift(maxKeep: word, files: seq<word>, slot: int)
    requires 0 <= slot <= maxKeep && InSaveOrder(maxKeep, files, slot)
    ensures InSaveOrder(maxKeep, files + [After(maxKeep, slot)], After(maxKeep, slot))
    ensures InSaveOrder(maxKeep, (files + [After(maxKeep, slot)])[1..], After(maxKeep, slot))
  {
    var longer := files + [After(maxKeep, slot)];
    forall k | 0 < k < |longer|
      ensures longer[k] == After(maxKeep, longer[k - 1])
    {
    }
    OrderTail(maxKeep, longer, After(maxKeep, slot));
  }

  /** In save order, the save `back` places before the newest one is `back` slots before it round the ring. */
  lemma {:induction false} OldestSlot(maxKeep: word, files: seq<word>, slot: int, back: nat)
    requires 1 <= maxKeep && 0 <= slot <= maxKeep && back < |files| <= maxKeep + 1 && InSaveOrder(maxKeep, files, slot)
    requires forall i | i in files :: i <= maxKeep
    ensures files[|files| - 1 - back] == if back <= slot then slot - back else slot - back + maxKeep + 1
  {
    if back > 0 {
      OldestSlot(maxKeep, files, slot, back - 1);
      assert files[|files| - 1 - back] in files;
    }
  }

  /** In save order the file removed is the oldest one, and the order is kept. */
  lemma OldestGoes(maxKeep: word, files: seq<word>, slot: int, del: int)
    requires 1 <= maxKeep < 1024 && DistinctSlots(files) && RingShape(maxKeep, files, slot) && InSaveOrder(maxKeep,
        files, slot)
    requires del == if |files| < maxKeep then -1 else After(maxKeep, After(maxKeep, slot))
    ensures AfterSave(files, del, After(maxKeep,
        slot)) == (if |files| < maxKeep then files else files[1..]) + [After(maxKeep, slot)]
    ensures InSaveOrder(maxKeep, AfterSave(files, del, After(maxKeep, slot)), After(maxKeep, slot))
  {
    hide Without, DistinctSlots;
    var g := After(maxKeep, slot);
    if |files| < maxKeep {
      WithoutAbsent(files, g);
      OrderShift(maxKeep, files, slot);
    } else {
      OldestSlot(maxKeep, files, slot, |files| - 1);
      assert files[0] == del && files[0] in files;
      WithoutPresent(files, del);
      assert forall i | i in files[1..] :: i in files;
      WithoutAbsent(files[1..], g);
      OrderShift(maxKeep, files, slot);
      assert (files + [g])[1..] == files[1..] + [g];
    }
  }

  /** The first save into an empty directory. */
  lemma FirstSave(maxKeep: word)
    requires 1 <= maxKeep < 1024
    ensures AfterSave([], -1, 0) == [0] && RingShape(maxKeep, [0], 0) && InSaveOrder(maxKeep, [0], 0)
  {
    assert Without([], 0) == [];
    assert forall i: word :: i in [0] <==> i == 0;
  }

  /** The slot rule in range is the next place round the ring. */
  lemma NextIsAfter(maxKeep: word, slot: int)
    requires 1 <= maxKeep < 1024 && -1 <= slot <= maxKeep
    ensures (if Wrap(slot + 1) > maxKeep then 0 else slot + 1) == After(maxKeep, slot)
  {
  }

  lemma InRange(maxKeep: word, files: seq<word>, slot: int)
    requires RingShape(maxKeep, files, slot)
    ensures 0 <= slot <= maxKeep && |files| <= maxKeep
  {
  }

  /** One save in the ring. */
  lemma RingOutcome(maxKeep: word, files: seq<word>, slot: int, listing: seq<word>, newSlot: word)
    requires 1 <= maxKeep < 1024 && DistinctSlots(files) && ListingOf(listing, files) && RingShape(maxKeep, files, slot)
    requires newSlot == After(maxKeep, slot)
    ensures var d := Scan(listing, maxKeep, newSlot).deleteIndex;
            && RingShape(maxKeep, AfterSave(files, d, newSlot), newSlot) && |AfterSave(files, d, newSlot)| <= maxKeep
            && (InSaveOrder(maxKeep, files, slot) ==>
                  && InSaveOrder(maxKeep, AfterSave(files, d, newSlot), newSlot)
                  && AfterSave(files, d, newSlot) == (if |files| < maxKeep then files else files[1..]) + [newSlot])
  {
    hide InSaveOrder, RingShape, Scan, AfterSave, DistinctSlots;
    InRange(maxKeep, files, slot);
    ScanOfRing(maxKeep, files, slot, listing, newSlot);
    var d := Scan(listing, maxKeep, newSlot).deleteIndex;
    RingStep(maxKeep, files, slot, d);
    InRange(maxKeep, AfterSave(files, d, newSlot), newSlot);
    if InSaveOrder(maxKeep, files, slot) {
      OldestGoes(maxKeep, files, slot, d);
    }
  }

  lemma FirstOutcome(maxKeep: word, listing: seq<word>)
    requires 1 <= maxKeep < 1024 && ListingOf(listing, [])
    ensures Scan(listing, maxKeep, 0) == ScanResult(maxKeep, -1)
    ensures AfterSave([], -1, 0) == [0] && RingShape(maxKeep, [0], 0) && InSaveOrder(maxKeep, [0], 0)
  {
    ListingMembers(listing, []);
    FirstSave(maxKeep);
  }

  /** From a full range, one save leaves all slots but the one after it. */
  lemma RejoinRing(maxKeep: word, files: seq<word>, newSlot: word)
    requires 1 <= maxKeep < 1024 && DistinctSlots(files) && newSlot <= maxKeep
    requires FullRange(maxKeep, files)
    ensures RingShape(maxKeep, AfterSave(files, After(maxKeep, newSlot), newSlot), newSlot)
    ensures |AfterSave(files, After(maxKeep, newSlot), newSlot)| <= maxKeep
  {
    hide Without, AfterSave;
    AfterSaveMembers(files, After(maxKeep, newSlot), newSlot);
    assert After(maxKeep, newSlot) in files && newSlot in files;
  }

  lemma {:induction false} MaxSlotIn(files: seq<word>)
    ensures files != [] ==> MaxSlot(files) in files
  {
    if |files| > 1 {
      var front := files[..|files| - 1];
      MaxSlotIn(front);
      assert forall i | i in front :: i in files;
    }
  }

  lemma {:induction false} MaxSlotAbove(files: seq<word>)
    ensures forall i | i in files :: i <= MaxSlot(files)
  {
    if files != [] {
      MaxSlotAbove(files[..|files| - 1]);
      assert files == files[..|files| - 1] + [files[|files| - 1]];
    }
  }

  /** A scan reports a slot of the directory or one within the limit. */
  lemma ScanInRange(files: seq<word>, maxKeep: word, currSlot: int)
    requires maxKeep < 1024 && -1 <= currSlot < UINT_MAX && forall i | i in files :: i < UINT_MAX - 1
    ensures Scan(files, maxKeep, currSlot).lastIndex < UINT_MAX - 1
    ensures files == [] ==> Scan(files, maxKeep, currSlot).lastIndex == maxKeep
  {
    hide GapBelow, NextBelow;
    MaxSlotIn(files);
  }

  // ---- saves whose file lands before the scan ----

  /** `slot` is the last save; all of 0..K are present but the two slots after it. */
  predicate Gapped(maxKeep: word, files: seq<word>, slot: int) {
    && 0 <= slot <= maxKeep && |files| == maxKeep - 1
    && forall i: word ::
         i in files <==> i <= maxKeep && i != After(maxKeep, slot) && i != After(maxKeep, After(maxKeep, slot))
  }

  /** What any run of saves leaves, whether each file lands before or after the scan of its save. */
  predicate SavedShape(maxKeep: word, files: seq<word>, slot: int) {
    RingShape(maxKeep, files, slot) || Gapped(maxKeep, files, slot)
  }

  /** The directory once slot `slot` has been written. */
  function Landed(files: seq<word>, slot: word): seq<word> {
    Without(files, slot) + [slot]
  }

  /** The directory after a save whose file was there when the scan named `del`. */
  function AfterLanding(files: seq<word>, del: int, slot: word): seq<word> {
    if del >= 0 then Without(Landed(files, slot), del) else Landed(files, slot)
  }

  /**
   * With two slots free, a scan names nothing for deletion and takes the slot before the lower one for the last save.
   */
  lemma ScanOfGapped(maxKeep: word, files: seq<word>, slot: int, listing: seq<word>, currSlot: int)
    requires 1 <= maxKeep < 1024 && -1 <= currSlot < UINT_MAX
    requires Gapped(maxKeep, files, slot) && ListingOf(listing, files)
    ensures Scan(listing, maxKeep, currSlot) == ScanResult(if slot == maxKeep - 1 then maxKeep else slot, -1)
  {
    hide GapBelow, NextBelow;
    ListingMembers(listing, files);
    AllInRange(listing, maxKeep);
    var g := After(maxKeep, slot);
    GapUnique(listing, maxKeep + 1, GapBelow(listing, maxKeep + 1), if slot == maxKeep - 1 then 0 else g);
  }

  /** The file just written closes one gap. */
  lemma LandedShape(maxKeep: word, files: seq<word>, slot: int)
    requires 1 <= maxKeep < 1024 && DistinctSlots(files) && SavedShape(maxKeep, files, slot)
    ensures var g := After(maxKeep, slot);
            && Landed(files, g) == files + [g] && DistinctSlots(files + [g])
            && (|files| < maxKeep ==> RingShape(maxKeep, files + [g], g))
            && (|files| == maxKeep ==> FullRange(maxKeep, files + [g]))
  {
    WithoutAbsent(files, After(maxKeep, slot));
  }

  /** What the deletion makes of the directory the file has landed in. */
  lemma LandedDelete(maxKeep: word, landed: seq<word>, slot: word, listing: seq<word>)
    requires 1 <= maxKeep < 1024 && slot <= maxKeep && DistinctSlots(landed) && ListingOf(listing, landed)
    requires RingShape(maxKeep, landed, slot) || FullRange(maxKeep, landed)
    ensures var del := Scan(listing, maxKeep, slot).deleteIndex;
            var left := if del >= 0 then Without(landed, del) else landed;
            && DistinctSlots(left) && SavedShape(maxKeep, left, slot)
            && (del >= 0 <==> |landed| >= maxKeep) && |left| == (if del >= 0 then |landed| - 1 else |landed|)
            && (slot in left <==> maxKeep >= 2 || |landed| == 2)
  {
    hide Without, Scan, DistinctSlots;
    var two := After(maxKeep, After(maxKeep, slot));
    if |landed| > maxKeep {
      ScanOfFullRange(maxKeep, landed, listing, slot);
      WithoutMembers(landed, After(maxKeep, slot));
      WithoutDistinct(landed, After(maxKeep, slot));
    } else {
      ScanOfRing(maxKeep, landed, slot, listing, slot);
      WithoutMembers(landed, two);
      WithoutDistinct(landed, two);
    }
  }

  /** In save order the file deleted is the oldest one, the new file counting as the newest. */
  lemma LandedOldest(maxKeep: word, landed: seq<word>, slot: word, listing: seq<word>)
    requires 1 <= maxKeep < 1024 && slot <= maxKeep && DistinctSlots(landed) && ListingOf(listing, landed)
    requires RingShape(maxKeep, landed, slot) || FullRange(maxKeep, landed)
    requires InSaveOrder(maxKeep, landed, slot)
    ensures var del := Scan(listing, maxKeep, slot).deleteIndex;
            && (|landed| < maxKeep ==> del == -1)
            && (|landed| >= maxKeep ==> del == landed[0] && Without(landed, del) == landed[1..])
  {
    hide Without, Scan, DistinctSlots;
    if |landed| > maxKeep {
      ScanOfFullRange(maxKeep, landed, listing, slot);
    } else {
      ScanOfRing(maxKeep, landed, slot, listing, slot);
    }
    if |landed| >= maxKeep {
      OldestSlot(maxKeep, landed, slot, |landed| - 1);
      assert landed[0] in landed;
      WithoutPresent(landed, landed[0]);
    }
  }

  lemma ShapeBounds(maxKeep: word, files: seq<word>, slot: int)
    requires maxKeep >= 1 && SavedShape(maxKeep, files, slot)
    ensures 0 <= slot <= maxKeep && |files| <= maxKeep && 0 <= After(maxKeep, slot) <= maxKeep
  {
  }

  /**
   * The slot a save has just written is lost exactly when the limit is one, the file landed before the scan, and
   * nothing else was there.
   */
  lemma LandingFirstSurvival(maxKeep: word, files: seq<word>, slot: int, listing: seq<word>)
    requires 1 <= maxKeep < 1024 && DistinctSlots(files) && SavedShape(maxKeep, files, slot)
    requires ListingOf(listing, Landed(files, After(maxKeep, slot)))
    ensures var g := After(maxKeep, slot);
            var left := AfterLanding(files, Scan(listing, maxKeep, g).deleteIndex, g);
            && (g in left <==> maxKeep >= 2 || files != [])
            && (|files| < maxKeep ==> (g in left <==> maxKeep >= 2))
  {
    hide Without, Scan, DistinctSlots, RingShape, FullRange, Landed;
    ShapeBounds(maxKeep, files, slot);
    LandedShape(maxKeep, files, slot);
    LandedDelete(maxKeep, files + [After(maxKeep, slot)], After(maxKeep, slot), listing);
  }

  /**
   * After any run of saves, a scan of the directory alone recovers the slot saved last, except when fewer than K states
   * are left and that slot is K - 1. Fewer than K are left for good when every file lands first.
   */
  lemma LandingFirstRecovery(maxKeep: word, files: seq<word>, slot: int, listing: seq<word>, currSlot: int)
    requires 1 <= maxKeep < 1024 && -1 <= currSlot < UINT_MAX && ListingOf(listing, files)
    requires SavedShape(maxKeep, files, slot)
    ensures Scan(listing, maxKeep, currSlot).lastIndex == slot <==> !(|files| < maxKeep && slot == maxKeep - 1)
  {
    hide Scan;
    if Gapped(maxKeep, files, slot) {
      ScanOfGapped(maxKeep, files, slot, listing, currSlot);
    } else {
      ScanOfRing(maxKeep, files, slot, listing, currSlot);
    }
  }

  /**
   * After that wrong recovery the next save whose file lands first, which goes to slot 0, is itself deleted, for
   * every limit.
   */
  lemma WrongRecoveryLosesSave(maxKeep: word, files: seq<word>, listing: seq<word>, landed: seq<word>, currSlot: int)
    requires 1 <= maxKeep < 1024 && -1 <= currSlot < UINT_MAX
    requires DistinctSlots(files) && Gapped(maxKeep, files, maxKeep - 1)
    requires ListingOf(listing, files) && ListingOf(landed, Landed(files, 0))
    ensures Scan(listing, maxKeep, currSlot).lastIndex == maxKeep && After(maxKeep, maxKeep) == 0
    ensures Scan(landed, maxKeep, 0).deleteIndex == 0
  {
    hide Without, Scan, DistinctSlots;
    ScanOfGapped(maxKeep, files, maxKeep - 1, listing, currSlot);
    WithoutAbsent(files, 0);
    assert RingShape(maxKeep, files + [0], maxKeep - 1);
    ScanOfRing(maxKeep, files + [0], maxKeep - 1, landed, 0);
  }

  /** One save after a gap of two: nothing is deleted and the ring is whole again. */
  lemma GappedOutcome(maxKeep: word, files: seq<word>, slot: int, listing: seq<word>, newSlot: word)
    requires 1 <= maxKeep < 1024 && DistinctSlots(files) && ListingOf(listing, files) && Gapped(maxKeep, files, slot)
    requires newSlot == After(maxKeep, slot)
    ensures Scan(listing, maxKeep, newSlot).deleteIndex == -1
    ensures AfterSave(files, -1, newSlot) == files + [newSlot] && RingShape(maxKeep, files + [newSlot], newSlot)
    ensures InSaveOrder(maxKeep, files, slot) ==> InSaveOrder(maxKeep, files + [newSlot], newSlot)
  {
    hide Scan, Without, DistinctSlots, InSaveOrder;
    ScanOfGapped(maxKeep, files, slot, listing, newSlot);
    WithoutAbsent(files, newSlot);
    if InSaveOrder(maxKeep, files, slot) {
      OrderShift(maxKeep, files, slot);
    }
  }

  lemma LandedDistinct(files: seq<word>, slot: word)
    requires DistinctSlots(files)
    ensures DistinctSlots(Landed(files, slot))
  {
    hide Without;
    WithoutDistinct(files, slot);
    WithoutMembers(files, slot);
    var left := Without(files, slot);
    forall k | 0 <= k < |left|
      ensures left[k] != slot
    {
      assert left[k] in left;
    }
  }

  lemma LandedFull(maxKeep: word, files: seq<word>, slot: word)
    requires maxKeep < 1024 && slot <= maxKeep && DistinctSlots(files) && FullRange(maxKeep, files)
    ensures FullRange(maxKeep, Landed(files, slot))
  {
    hide Without, DistinctSlots;
    WithoutDistinct(files, slot);
    WithoutMembers(files, slot);
  }

  /** One save whose file lands first. */
  lemma LandingOutcome(maxKeep: word, files: seq<word>, slot: int, listing: seq<word>)
    requires 1 <= maxKeep < 1024 && DistinctSlots(files) && SavedShape(maxKeep, files, slot)
    requires ListingOf(listing, Landed(files, After(maxKeep, slot)))
    ensures var g := After(maxKeep, slot);
            var left := AfterLanding(files, Scan(listing, maxKeep, g).deleteIndex, g);
            && SavedShape(maxKeep, left, g) && |left| <= maxKeep && (|files| < maxKeep ==> |left| < maxKeep)
            && (g in left <==> maxKeep >= 2 || files != [])
            && (InSaveOrder(maxKeep, files, slot) ==>
                  && InSaveOrder(maxKeep, left, g)
                  && left == if |files| + 1 < maxKeep then files + [g] else (files + [g])[1..])
  {
    hide Without, Scan, DistinctSlots, RingShape, Gapped, FullRange, Landed, InSaveOrder;
    var g := After(maxKeep, slot);
    ShapeBounds(maxKeep, files, slot);
    LandedShape(maxKeep, files, slot);
    LandedDelete(maxKeep, files + [g], g, listing);
    LandingFirstSurvival(maxKeep, files, slot, listing);
    if InSaveOrder(maxKeep, files, slot) {
      OrderShift(maxKeep, files, slot);
      LandedOldest(maxKeep, files + [g], g, listing);
    }
  }

  lemma FirstLanding(maxKeep: word, listing: seq<word>)
    requires 1 <= maxKeep < 1024 && ListingOf(listing, Landed([], 0))
    ensures var left := AfterLanding([], Scan(listing, maxKeep, 0).deleteIndex, 0);
            && SavedShape(maxKeep, left, 0) && |left| < maxKeep && (0 in left <==> maxKeep >= 2)
            && InSaveOrder(maxKeep, left, 0) && left == if 1 < maxKeep then [0] else []
  {
    hide Scan, RingShape, Gapped;
    FirstSave(maxKeep);
    assert DistinctSlots([0]);
    LandedDelete(maxKeep, [0], 0, listing);
    LandedOldest(maxKeep, [0], 0, listing);
  }

  lemma FullLanding(maxKeep: word, files: seq<word>, slot: word, listing: seq<word>)
    requires 1 <= maxKeep < 1024 && slot <= maxKeep && DistinctSlots(files) && FullRange(maxKeep, files)
    requires ListingOf(listing, Landed(files, slot))
    ensures var left := AfterLanding(files, Scan(listing, maxKeep, slot).deleteIndex, slot);
            SavedShape(maxKeep, left, slot) && |left| <= maxKeep
  {
    hide Scan, RingShape, Gapped, DistinctSlots, Without;
    LandedDistinct(files, slot);
    LandedFull(maxKeep, files, slot);
    LandedDelete(maxKeep, Landed(files, slot), slot, listing);
  }

  lemma AfterLandingDistinct(files: seq<word>, slot: word, del: int)
    requires DistinctSlots(files)
    ensures DistinctSlots(AfterLanding(files, del, slot))
  {
    hide Without, DistinctSlots;
    LandedDistinct(files, slot);
    WithoutDistinct(Landed(files, slot), del);
  }

  /** One save, with the scan before the file lands, after any run of saves. */
  lemma SaveOutcome(maxKeep: word, files: seq<word>, slot: int, listing: seq<word>)
    requires 1 <= maxKeep < 1024 && DistinctSlots(files) && SavedShape(maxKeep, files, slot)
    requires ListingOf(listing, files)
    ensures var g := After(maxKeep, slot);
            var left := AfterSave(files, Scan(listing, maxKeep, g).deleteIndex, g);
            && RingShape(maxKeep, left, g) && |left| <= maxKeep
            && (InSaveOrder(maxKeep, files, slot) ==>
                  && InSaveOrder(maxKeep, left, g)
                  && left == (if |files| < maxKeep then files else files[1..]) + [g])
  {
    hide RingShape, InSaveOrder, Scan, AfterSave, DistinctSlots, After;
    ShapeBounds(maxKeep, files, slot);
    var g := After(maxKeep, slot);
    if RingShape(maxKeep, files, slot) {
      RingOutcome(maxKeep, files, slot, listing, g);
    } else {
      GappedOutcome(maxKeep, files, slot, listing, g);
      InRange(maxKeep, files + [g], g);
    }
  }

  lemma FullOutcome(maxKeep: word, files: seq<word>, slot: word, listing: seq<word>)
    requires 1 <= maxKeep < 1024 && slot <= maxKeep && DistinctSlots(files) && FullRange(maxKeep, files)
    requires ListingOf(listing, files)
    ensures var left := AfterSave(files, Scan(listing, maxKeep, slot).deleteIndex, slot);
            RingShape(maxKeep, left, slot) && |left| <= maxKeep
  {
    hide Scan, DistinctSlots, AfterSave;
    ScanOfFullRange(maxKeep, files, listing, slot);
    RejoinRing(maxKeep, files, slot);
  }

  lemma AfterSaveDistinct(files: seq<word>, del: int, slot: word)
    requires DistinctSlots(files)
    ensures DistinctSlots(AfterSave(files, del, slot))
  {
    hide Without, DistinctSlots, AfterSave;
    AfterSaveMembers(files, del, slot);
  }

  /** With a limit of one, a file that is there before the scan is the one deleted. */
  lemma LandingFirstLosesSave()
    ensures Scan([0], 1, 0).deleteIndex == 0
  {
    GapUnique([0], 2, GapBelow([0], 2), 1);
    NextOccupiedUnique([0], 2, 1, NextBelow([0], 2, 1), UINT_MAX);
  }

  /** With a limit of two, a scan after two saves that landed first takes slot 2 for the last save, which was slot 1. */
  lemma LandingFirstMisleadsScan(currSlot: int)
    requires -1 <= currSlot < UINT_MAX
    ensures Gapped(2, [1], 1) && Scan([1], 2, currSlot).lastIndex == 2
  {
    hide Scan;
    ScanOfGapped(2, [1], 1, [1], currSlot);
  }

  lemma {:induction false} CountZero(files: seq<word>)
    ensures CountInRange(files, 0) > 0 <==> 0 in files
  {
    if files != [] {
      var front := files[..|files| - 1];
      CountZero(front);
      assert files == front + [files[|files| - 1]];
    }
  }

  /** With no limit (K = 0) a scan of any non-empty directory recovers the highest slot. */
  lemma UnlimitedRecovery(files: seq<word>, currSlot: int)
    requires files != [] && -1 <= currSlot < UINT_MAX
    ensures Scan(files, 0, currSlot).lastIndex in files
    ensures forall i | i in files :: i <= Scan(files, 0, currSlot).lastIndex
  {
    hide GapBelow, NextBelow, MaxSlot;
    CountZero(files);
    MaxSlotIn(files);
    MaxSlotAbove(files);
  }

  // ---- any directory within the limit ----

  /** Whatever happened before: distinct slots, none above the limit. */
  predicate WithinLimit(maxKeep: word, files: seq<word>) {
    DistinctSlots(files) && forall i | i in files :: i <= maxKeep
  }

  /** The lowest free slot of 0..K. */
  function FirstFree(maxKeep: word, files: seq<word>): word
    requires maxKeep < UINT_MAX - 1
  {
    GapBelow(files, maxKeep + 1)
  }

  /** The slot before `slot` in the ring 0..K. */
  function Prior(maxKeep: word, slot: int): int {
    if slot == 0 then maxKeep else slot - 1
  }

  /** The slot a scan names for deletion, or -1, when slot `slot` is the current one. */
  function Named(maxKeep: word, files: seq<word>, slot: int): int
    requires maxKeep < UINT_MAX - 1
  {
    if |files| < maxKeep then -1
    else if |files| == maxKeep then After(maxKeep, FirstFree(maxKeep, files))
    else After(maxKeep, slot)
  }

  function SlotSet(files: seq<word>): (s: set<word>)
    ensures forall i: word :: i in s <==> i in files
  {
    if files == [] then {} else SlotSet(files[..|files| - 1]) + {files[|files| - 1]}
  }

  lemma {:induction false} SlotSetSize(files: seq<word>)
    requires DistinctSlots(files)
    ensures |SlotSet(files)| == |files|
  {
    if files != [] {
      SlotSetSize(files[..|files| - 1]);
    }
  }

  /** The slots below `n`. */
  function SlotsBelow(n: nat): (s: set<word>)
    requires n < WORD_SIZE
    ensures |s| == n && forall i: word :: i in s <==> i < n
  {
    if n == 0 then {} else SlotsBelow(n - 1) + {n - 1}
  }

  /** How many slots of 0..K are free. */
  lemma FreeSlots(maxKeep: word, files: seq<word>) returns (free: set<word>)
    requires maxKeep < 1024 && WithinLimit(maxKeep, files)
    ensures forall i: word :: i in free <==> i <= maxKeep && i !in files
    ensures |free| + |files| == maxKeep + 1
  {
    hide SlotSet, SlotsBelow;
    var present, all := SlotSet(files), SlotsBelow(maxKeep + 1);
    SlotSetSize(files);
    free := all - present;
    assert present <= all && all == free + present;
    assert |free + present| == |free| + |present|;
  }

  /** The lowest free slot, and the only one when K files are there. */
  lemma FirstFreeIs(maxKeep: word, files: seq<word>)
    requires 1 <= maxKeep < 1024 && WithinLimit(maxKeep, files)
    ensures |files| <= maxKeep + 1
    ensures |files| <= maxKeep ==> FirstFree(maxKeep, files) <= maxKeep && FirstFree(maxKeep, files) !in files
    ensures |files| == maxKeep ==> forall i: word :: i in files <==> i <= maxKeep && i != FirstFree(maxKeep, files)
    ensures |files| == maxKeep + 1 ==> FullRange(maxKeep, files)
  {
    hide GapBelow, DistinctSlots;
    var free := FreeSlots(maxKeep, files);
    var m := GapBelow(files, maxKeep + 1);
    if |files| <= maxKeep {
      assert free != {};
      var f :| f in free;
      assert m != UINT_MAX;
      if |files| == maxKeep {
        assert m in free && |free - {m}| == 0;
        assert free == {m};
      }
    } else {
      assert free == {};
    }
  }

  lemma ScanOfFew(maxKeep: word, files: seq<word>, listing: seq<word>, currSlot: int)
    requires 1 <= maxKeep < 1024 && -1 <= currSlot < UINT_MAX
    requires WithinLimit(maxKeep, files) && ListingOf(listing, files)
    requires |files| < maxKeep
    ensures Scan(listing, maxKeep, currSlot) == ScanResult(Prior(maxKeep, FirstFree(maxKeep, files)), -1)
  {
    hide GapBelow, NextBelow, DistinctSlots;
    FirstFreeIs(maxKeep, files);
    ListingMembers(listing, files);
    AllInRange(listing, maxKeep);
    GapUnique(listing, maxKeep + 1, GapBelow(listing, maxKeep + 1), FirstFree(maxKeep, files));
    assert files == [] ==> 0 !in files;
  }

  /**
   * A scan of any directory within the limit, in any listing order: the slot before the lowest free one is taken for
   * the last save, and with K files the slot after the only free one is named for deletion.
   */
  lemma ScanWithin(maxKeep: word, files: seq<word>, listing: seq<word>, currSlot: int)
    requires 1 <= maxKeep < 1024 && -1 <= currSlot < UINT_MAX
    requires WithinLimit(maxKeep, files) && ListingOf(listing, files)
    ensures |files| <= maxKeep ==>
              Scan(listing, maxKeep, currSlot).lastIndex == Prior(maxKeep, FirstFree(maxKeep, files))
    ensures |files| <= maxKeep || 0 <= currSlot <= maxKeep ==>
              Scan(listing, maxKeep, currSlot).deleteIndex == Named(maxKeep, files, currSlot)
  {
    hide GapBelow, NextBelow, DistinctSlots, Scan;
    FirstFreeIs(maxKeep, files);
    if |files| < maxKeep {
      ScanOfFew(maxKeep, files, listing, currSlot);
    } else if |files| == maxKeep {
      ScanOfRing(maxKeep, files, Prior(maxKeep, FirstFree(maxKeep, files)), listing, currSlot);
    } else if 0 <= currSlot <= maxKeep {
      ScanOfFullRange(maxKeep, files, listing, currSlot);
    }
  }

  /**
   * A scan recovers the slot saved last exactly when the lowest free slot is the one after it, for any directory within
   * the limit that is not full.
   */
  lemma RecoveryExact(maxKeep: word, files: seq<word>, last: int, listing: seq<word>, currSlot: int)
    requires 1 <= maxKeep < 1024 && -1 <= currSlot < UINT_MAX
    requires WithinLimit(maxKeep, files) && ListingOf(listing, files)
    requires |files| <= maxKeep && 0 <= last <= maxKeep
    ensures Scan(listing, maxKeep, currSlot).lastIndex == last <==> FirstFree(maxKeep, files) == After(maxKeep, last)
  {
    hide GapBelow, DistinctSlots, Scan;
    FirstFreeIs(maxKeep, files);
    ScanWithin(maxKeep, files, listing, currSlot);
  }

  /** A save whose scan runs first, from any directory within the limit: at most K files are left, the new one kept. */
  lemma SaveWithin(maxKeep: word, files: seq<word>, slot: word, listing: seq<word>)
    requires 1 <= maxKeep < 1024 && slot <= maxKeep && WithinLimit(maxKeep, files) && ListingOf(listing, files)
    ensures var del := Scan(listing, maxKeep, slot).deleteIndex;
            var left := AfterSave(files, del, slot);
            && del == Named(maxKeep, files, slot) && WithinLimit(maxKeep, left) && |left| <= maxKeep && slot in left
  {
    hide Without, Scan, DistinctSlots, GapBelow;
    FirstFreeIs(maxKeep, files);
    ScanWithin(maxKeep, files, listing, slot);
    var del := Named(maxKeep, files, slot);
    AfterSaveDistinct(files, del, slot);
    AfterSaveMembers(files, del, slot);
    WithoutDistinct(files, del);
    var kept := if del >= 0 then Without(files, del) else files;
    WithoutDistinct(kept, slot);
  }

  /**
   * A save whose file lands first, from any directory within the limit: at most K files are left, and the new one is
   * lost exactly when it leaves a single free slot, the one before its own.
   */
  lemma LandingWithin(maxKeep: word, files: seq<word>, slot: word, listing: seq<word>)
    requires 1 <= maxKeep < 1024 && slot <= maxKeep && WithinLimit(maxKeep, files)
    requires ListingOf(listing, Landed(files, slot))
    ensures var del, landed := Scan(listing, maxKeep, slot).deleteIndex, Landed(files, slot);
            var left := AfterLanding(files, del, slot);
            && del == Named(maxKeep, landed, slot) && WithinLimit(maxKeep, left) && |left| <= maxKeep
            && (slot !in left <==> |landed| == maxKeep && FirstFree(maxKeep, landed) == Prior(maxKeep, slot))
  {
    hide Without, Scan, DistinctSlots, GapBelow;
    var landed := Landed(files, slot);
    LandedDistinct(files, slot);
    WithoutMembers(files, slot);
    FirstFreeIs(maxKeep, landed);
    ScanWithin(maxKeep, landed, listing, slot);
    var del := Named(maxKeep, landed, slot);
    WithoutMembers(landed, del);
    WithoutDistinct(landed, del);
  }

  /**
   * The state a scan names is the oldest one exactly when the slot before that one's is the only free slot; with
   * nothing free, when the oldest is in the slot after the current one. `files` is in the order of saving.
   */
  lemma OldestExact(maxKeep: word, files: seq<word>, listing: seq<word>, slot: word)
    requires 1 <= maxKeep < 1024 && slot <= maxKeep && WithinLimit(maxKeep, files) && ListingOf(listing, files)
    requires |files| >= maxKeep
    ensures Scan(listing, maxKeep, slot).deleteIndex == files[0]
            <==> if |files| == maxKeep then FirstFree(maxKeep, files) == Prior(maxKeep, files[0])
                 else files[0] == After(maxKeep, slot)
  {
    hide GapBelow, DistinctSlots, Scan;
    assert files[0] in files;
    FirstFreeIs(maxKeep, files);
    ScanWithin(maxKeep, files, listing, slot);
  }

  // ---- any directory at all ----

  /** The slots of a directory within the limit. */
  function SlotsWithin(files: seq<word>, maxKeep: word): (s: set<word>)
    ensures forall i: word :: i in s <==> i in files && i <= maxKeep
  {
    if files == [] then {}
    else
      var rest, last := SlotsWithin(files[..|files| - 1], maxKeep), files[|files| - 1];
      if last <= maxKeep then rest + {last} else rest
  }

  lemma {:induction false} SlotsWithinSize(files: seq<word>, maxKeep: word)
    requires DistinctSlots(files)
    ensures |SlotsWithin(files, maxKeep)| == CountInRange(files, maxKeep)
  {
    if files != [] {
      var front, last := files[..|files| - 1], files[|files| - 1];
      SlotsWithinSize(front, maxKeep);
      assert last !in front;
    }
  }

  /** The free slots of 0..K, and how many are taken. */
  lemma FreeWithin(files: seq<word>, maxKeep: word) returns (free: set<word>)
    requires maxKeep < 1024 && DistinctSlots(files)
    ensures forall i: word :: i in free <==> i <= maxKeep && i !in files
    ensures |free| + CountInRange(files, maxKeep) == maxKeep + 1
  {
    hide SlotsWithin, SlotsBelow, CountInRange;
    var taken, all := SlotsWithin(files, maxKeep), SlotsBelow(maxKeep + 1);
    SlotsWithinSize(files, maxKeep);
    free := all - taken;
    assert taken <= all && all == free + taken;
    assert |free + taken| == |free| + |taken|;
  }

  /** What a scan makes of a directory without a slot of 0..K. */
  lemma ScanOfNone(files: seq<word>, maxKeep: word, currSlot: int)
    requires 1 <= maxKeep < 1024 && -1 <= currSlot < UINT_MAX && DistinctSlots(files)
    requires forall i | i in files :: i > maxKeep
    ensures var r := Scan(files, maxKeep, currSlot);
            && r.deleteIndex == -1 && (files == [] ==> r.lastIndex == maxKeep)
            && (files != [] ==> r.lastIndex in files && forall i | i in files :: i <= r.lastIndex)
  {
    hide GapBelow, NextBelow, MaxSlot, CountInRange, DistinctSlots, SlotsWithin;
    SlotsWithinSize(files, maxKeep);
    assert SlotsWithin(files, maxKeep) == {};
    MaxSlotIn(files);
    MaxSlotAbove(files);
  }

  lemma FewerInSubset(a: set<word>, b: set<word>)
    requires a <= b
    ensures |a| <= |b|
  {
    assert b == a + (b - a) && |a + (b - a)| == |a| + |b - a|;
  }

  /** With a lowest free slot `f` and some slot of 0..K taken. */
  lemma ScanWithGap(files: seq<word>, maxKeep: word, currSlot: int, f: word)
    requires 1 <= maxKeep < 1024 && -1 <= currSlot < UINT_MAX && DistinctSlots(files)
    requires exists i: word :: i <= maxKeep && i in files
    requires f <= maxKeep && f !in files && forall i: word | i < f :: i in files
    ensures var r := Scan(files, maxKeep, currSlot);
            && r.lastIndex == (if f == 0 then maxKeep else f - 1)
            && r.deleteIndex == (if exists i: word :: f < i <= maxKeep && i !in files then -1
                                 else if f == maxKeep then 0 else f + 1)
  {
    hide GapBelow, NextBelow, MaxSlot, CountInRange, DistinctSlots, SlotsWithin;
    var gap := GapBelow(files, maxKeep + 1);
    GapUnique(files, maxKeep + 1, gap, f);
    SlotsWithinSize(files, maxKeep);
    var j: word :| j <= maxKeep && j in files;
    assert j in SlotsWithin(files, maxKeep);
    assert CountInRange(files, maxKeep) > 0;
    var free := FreeWithin(files, maxKeep);
    assert f in free;
    if i: word :| f < i <= maxKeep && i !in files {
      assert {f, i} <= free && |{f, i}| == 2;
      FewerInSubset({f, i}, free);
    } else {
      assert free == {f};
      var next: word := if f < maxKeep then f + 1 else UINT_MAX;
      NextOccupiedUnique(files, maxKeep + 1, f, NextBelow(files, maxKeep + 1, f), next);
    }
  }

  /** With all of 0..K taken. */
  lemma ScanWithoutGap(files: seq<word>, maxKeep: word, currSlot: int)
    requires 1 <= maxKeep < 1024 && -1 <= currSlot < UINT_MAX && DistinctSlots(files)
    requires forall i: word | i <= maxKeep :: i in files
    ensures var r := Scan(files, maxKeep, currSlot);
            && ((exists i :: i in files && i > maxKeep) ==>
                  r.deleteIndex == 1 && r.lastIndex in files && forall i | i in files :: i <= r.lastIndex)
            && ((forall i | i in files :: i <= maxKeep) ==>
                  r == if 0 <= currSlot < maxKeep then ScanResult(currSlot, currSlot + 1) else ScanResult(maxKeep, 0))
  {
    hide GapBelow, NextBelow, MaxSlot, CountInRange, DistinctSlots, SlotsWithin;
    GapUnique(files, maxKeep + 1, GapBelow(files, maxKeep + 1), UINT_MAX);
    var free := FreeWithin(files, maxKeep);
    assert free == {};
    MaxSlotIn(files);
    MaxSlotAbove(files);
    assert maxKeep in files;
  }

  // ---- a rescan between saves ----

  /**
   * After any run of saves, a rescan and then a save whose file lands first: the new state survives exactly when the
   * rescan was right and there is room, that is a limit of two or another state.
   */
  lemma RescanThenLanding(maxKeep: word, files: seq<word>, last: int, listing: seq<word>, currSlot: int,
                          landed: seq<word>)
    requires 1 <= maxKeep < 1024 && -1 <= currSlot < UINT_MAX
    requires DistinctSlots(files) && SavedShape(maxKeep, files, last) && ListingOf(listing, files)
    requires ListingOf(landed, Landed(files, After(maxKeep, Scan(listing, maxKeep, currSlot).lastIndex)))
    ensures var found := Scan(listing, maxKeep, currSlot).lastIndex;
            var slot := After(maxKeep, found);
            slot in AfterLanding(files, Scan(landed, maxKeep, slot).deleteIndex, slot)
            <==> found == last && (maxKeep >= 2 || files != [])
  {
    hide Without, Scan, DistinctSlots, RingShape, Landed;
    ShapeBounds(maxKeep, files, last);
    LandingFirstRecovery(maxKeep, files, last, listing, currSlot);
    var found := Scan(listing, maxKeep, currSlot).lastIndex;
    if found == last {
      LandingFirstSurvival(maxKeep, files, last, landed);
    } else {
      if RingShape(maxKeep, files, last) {
        ScanOfRing(maxKeep, files, last, listing, currSlot);
      }
      ScanOfGapped(maxKeep, files, last, listing, currSlot);
      WrongRecoveryLosesSave(maxKeep, files, listing, landed, currSlot);
      WithoutMembers(Landed(files, 0), 0);
    }
  }

  /**
   * After a wrong rescan, saves whose scans run first: the first one deletes nothing, and the second deletes the first
   * one's state, the newest, and overwrites slot 1.
   */
  lemma RescanThenSaves(maxKeep: word, files: seq<word>, first: seq<word>, second: seq<word>)
    requires 2 <= maxKeep < 1024 && DistinctSlots(files) && Gapped(maxKeep, files, maxKeep - 1)
    requires ListingOf(first, files) && ListingOf(second, files + [0])
    ensures Scan(first, maxKeep, 0).deleteIndex == -1 && AfterSave(files, -1, 0) == files + [0]
    ensures Scan(second, maxKeep, 1).deleteIndex == 0 && AfterSave(files + [0], 0, 1) == Without(files, 1) + [1]
    ensures 1 in files && |AfterSave(files + [0], 0, 1)| == maxKeep - 1
  {
    hide Without, Scan, DistinctSlots;
    ScanOfGapped(maxKeep, files, maxKeep - 1, first, 0);
    WithoutAbsent(files, 0);
    ScanOfRing(maxKeep, files + [0], maxKeep - 1, second, 1);
    WithoutLast(files, 0);
    WithoutDistinct(files, 1);
  }

  lemma SavesAfterMisled()
    ensures Gapped(3, [1, 2], 2) && AfterSave(AfterSave([1, 2], -1, 0), 0, 1) == [2, 1]
  {
    var left: seq<word>, first: seq<word> := [1, 2], [1, 2, 0];
    assert left[1..] == [2] && first[1..] == [2, 0] && first[1..][1..] == [0];
    assert Without(left, 0) == left;
    assert AfterSave(left, -1, 0) == first;
    assert Without(first, 0) == left && Without(left, 1) == [2];
  }

  /**
   * With K = 3: saves that land first into slots 0, 1, 2 leave 1 and 2, two saves after the mistaken rescan leave 2 and
   * 1, slot 1 saved last, and a scan takes slot 3 for it.
   */
  lemma RescanMisledElsewhere(currSlot: int)
    requires -1 <= currSlot < UINT_MAX
    ensures Gapped(3, [1, 2], 2) && AfterSave(AfterSave([1, 2], -1, 0), 0, 1) == [2, 1]
    ensures Scan([2, 1], 3, currSlot).lastIndex == 3
  {
    hide Scan, GapBelow, Gapped, AfterSave;
    SavesAfterMisled();
    var files: seq<word> := [2, 1];
    GapUnique(files, 4, GapBelow(files, 4), 0);
    ScanWithin(3, files, files, currSlot);
  }

  /** The directory and the current slot setting. `files` lists the slots present, oldest save first. */
  class SaveStateRing {
    const maxKeep: word
    var files: seq<word>
    var stateSlot: int

    ghost predicate Valid()
      reads this
    {
      1 <= maxKeep < 1024 && -1 <= stateSlot < UINT_MAX - 1 && DistinctSlots(files)
    }

    /** Nothing saved yet, with the slot a scan of the empty directory sets. */
    ghost predicate Fresh()
      reads this
    {
      files == [] && stateSlot == maxKeep
    }

    /** The states present are the last ones saved, in ring positions up to the current slot. */
    ghost predicate InRing()
      reads this
    {
      RingShape(maxKeep, files, stateSlot)
    }

    /** The states present are what some run of saves leaves. */
    ghost predicate Saved()
      reads this
    {
      SavedShape(maxKeep, files, stateSlot)
    }

    /** All of slots 0..K are occupied. */
    ghost predicate Full()
      reads this
    {
      FullRange(maxKeep, files)
    }

    constructor (keep: word, present: seq<word>, slot: int)
      requires 1 <= keep < 1024 && -1 <= slot < UINT_MAX - 1 && DistinctSlots(present)
      ensures Valid() && maxKeep == keep && files == present && stateSlot == slot
    {
      maxKeep, files, stateSlot := keep, present, slot;
    }

    /** `command_event_get_next_savestate_auto_index` */
    function NextAutoIndex(): int
      reads this
    {
      var newStateSlot := stateSlot + 1;
      if maxKeep > 0 && Wrap(newStateSlot) > maxKeep then 0 else newStateSlot
    }

    /**
     * `command_event_set_savestate_auto_index`: a scan of the directory alone, in any listing order, recovers the
     * slot saved last; without auto-indexing, or when the directory cannot be read, the slot becomes 0.
     */
    method SetAutoIndex(autoIndex: bool, readable: bool, listing: seq<word>)
      requires Valid() && ListingOf(listing, files) && forall i | i in files :: i < UINT_MAX - 1
      modifies this`stateSlot
      ensures Valid()
      ensures !autoIndex || !readable ==> stateSlot == 0
      ensures autoIndex && readable && files == [] ==> Fresh()
      ensures autoIndex && readable && WithinLimit(maxKeep, files) && |files| <= maxKeep ==>
                stateSlot == Prior(maxKeep, FirstFree(maxKeep, files))
      ensures autoIndex && readable ==> forall slot: int | RingShape(maxKeep, files, slot) :: stateSlot == slot
      ensures autoIndex && readable ==> forall slot: int | SavedShape(maxKeep, files, slot) ::
                  stateSlot == slot <==> !(|files| < maxKeep && slot == maxKeep - 1)
    {
      hide RingShape, Gapped, Scan, ListingOf, FirstFree, Prior, DistinctSlots;
      var lastIndex: word := 0;
      if autoIndex && readable {
        var r := ScanStates(listing, maxKeep, stateSlot);
        ListingMembers(listing, files);
        ScanInRange(listing, maxKeep, stateSlot);
        forall slot: int | SavedShape(maxKeep, files, slot)
          ensures r.lastIndex == slot <==> !(|files| < maxKeep && slot == maxKeep - 1)
        {
          LandingFirstRecovery(maxKeep, files, slot, listing, stateSlot);
        }
        forall slot: int | RingShape(maxKeep, files, slot)
          ensures r.lastIndex == slot
        {
          ScanOfRing(maxKeep, files, slot, listing, stateSlot);
        }
        if WithinLimit(maxKeep, files) && |files| <= maxKeep {
          ScanWithin(maxKeep, files, listing, stateSlot);
        }
        lastIndex := r.lastIndex;
      }
      stateSlot := lastIndex;
    }

    /** An auto-indexed save: pick the slot, collect garbage from the directory as it is, then the new file lands. */
    method Save(listing: seq<word>)
      requires Valid() && ListingOf(listing, files)
      modifies this`stateSlot, this`files
      ensures Valid() && stateSlot == old(NextAutoIndex())
      ensures stateSlot == if old(stateSlot) >= maxKeep then 0 else old(stateSlot) + 1
      ensures files == AfterSave(old(files), Scan(listing, maxKeep, stateSlot).deleteIndex, stateSlot)
      ensures old(WithinLimit(maxKeep, files)) ==>
                && WithinLimit(maxKeep, files) && |files| <= maxKeep && stateSlot in files
                && files == AfterSave(old(files), Named(maxKeep, old(files), stateSlot), stateSlot)
      ensures old(Fresh() || Saved() || Full()) ==> InRing() && |files| <= maxKeep
      ensures old(Fresh() || (Saved() && InSaveOrder(maxKeep, files, stateSlot))) ==>
                && InSaveOrder(maxKeep, files, stateSlot)
                && files == (if |old(files)| < maxKeep then old(files) else old(files)[1..]) + [stateSlot]
    {
      hide RingShape, Gapped, InSaveOrder, Without, Scan, DistinctSlots, FullRange, ListingOf, After, FirstFree, Named,
          Prior, WithinLimit, SavedShape;
      ghost var before, last := files, stateSlot;
      stateSlot := NextAutoIndex();
      var r := ScanStates(listing, maxKeep, stateSlot);
      if r.deleteIndex >= 0 {
        files := Without(files, r.deleteIndex);
      }
      files := Without(files, stateSlot) + [stateSlot];
      assert files == AfterSave(before, r.deleteIndex, stateSlot);
      hide AfterSave;
      AfterSaveDistinct(before, r.deleteIndex, stateSlot);
      if old(WithinLimit(maxKeep, files)) {
        SaveWithin(maxKeep, before, stateSlot, listing);
      }
      if old(Fresh()) {
        FirstOutcome(maxKeep, listing);
      } else if old(Saved()) {
        ShapeBounds(maxKeep, before, last);
        NextIsAfter(maxKeep, last);
        SaveOutcome(maxKeep, before, last, listing);
      } else if old(Full()) {
        FullOutcome(maxKeep, before, stateSlot, listing);
      }
    }

    /**
     * The same save when the file is already written when the scan runs: the scan sees the new file, and
     * the deletion can hit it.
     */
    method SaveLandingFirst(listing: seq<word>)
      requires Valid() && ListingOf(listing, Landed(files, NextAutoIndex()))
      modifies this`stateSlot, this`files
      ensures Valid() && stateSlot == old(NextAutoIndex())
      ensures stateSlot == if old(stateSlot) >= maxKeep then 0 else old(stateSlot) + 1
      ensures files == AfterLanding(old(files), Scan(listing, maxKeep, stateSlot).deleteIndex, stateSlot)
      ensures old(WithinLimit(maxKeep, files)) ==>
                var landed := Landed(old(files), stateSlot);
                && WithinLimit(maxKeep, files) && |files| <= maxKeep
                && files == AfterLanding(old(files), Named(maxKeep, landed, stateSlot), stateSlot)
                && (stateSlot !in files
                    <==> |landed| == maxKeep && FirstFree(maxKeep, landed) == Prior(maxKeep, stateSlot))
      ensures old(Fresh() || Saved() || Full()) ==> Saved() && |files| <= maxKeep
      ensures old(Fresh() || Saved()) ==> (stateSlot in files <==> maxKeep >= 2 || old(files) != [])
      ensures old(Fresh() || (Saved() && |files| < maxKeep)) ==>
                |files| < maxKeep && (stateSlot in files <==> maxKeep >= 2)
      ensures old(Fresh() || (Saved() && InSaveOrder(maxKeep, files, stateSlot))) ==>
                && InSaveOrder(maxKeep, files, stateSlot)
                && files == if |old(files)| + 1 < maxKeep then old(files) + [stateSlot]
                            else (old(files) + [stateSlot])[1..]
    {
      hide RingShape, Gapped, InSaveOrder, Without, Scan, DistinctSlots, FullRange, ListingOf, After, FirstFree, Named,
          Prior, WithinLimit, SavedShape;
      ghost var before, last := files, stateSlot;
      stateSlot := NextAutoIndex();
      files := Without(files, stateSlot) + [stateSlot];
      var r := ScanStates(listing, maxKeep, stateSlot);
      if r.deleteIndex >= 0 {
        files := Without(files, r.deleteIndex);
      }
      assert files == AfterLanding(before, r.deleteIndex, stateSlot);
      hide AfterLanding;
      AfterLandingDistinct(before, stateSlot, r.deleteIndex);
      if old(WithinLimit(maxKeep, files)) {
        LandingWithin(maxKeep, before, stateSlot, listing);
      }
      if old(Fresh()) {
        FirstLanding(maxKeep, listing);
      } else if old(Saved()) {
        ShapeBounds(maxKeep, before, last);
        NextIsAfter(maxKeep, last);
        LandingOutcome(maxKeep, before, last, listing);
      } else if old(Full()) {
        FullLanding(maxKeep, before, stateSlot, listing);
      }
    }
  }
}
