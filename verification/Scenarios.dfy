/** Whole runs of the cheat manager, with the core changing the memory between its calls. */
module Scenarios {
  import opened Words
  import opened Slots
  import opened SearchSession
  import opened Segments
  import opened Cheats
  import opened Wrappers
  import opened CheatEngine
  import opened Freeze
  import opened SaveStates
  import opened SearchLaws
  import opened PlaceValue
  import CheatFile

  method Assign(a: array<byte>, bytes: seq<byte>)
    requires |bytes| == a.Length
    modifies a
    ensures a[..] == bytes
  {
    forall k | 0 <= k < a.Length {
      a[k] := bytes[k];
    }
  }

  /** Fills one segment. */
  method Fill(m: CheatManager, i: nat, bytes: seq<byte>)
    requires m.Valid() && i < |m.segments| && |bytes| == m.segments[i].Length
    modifies m.segments[i]
    ensures m.Valid() && Contents(m.segments) == old(Contents(m.segments))[i := bytes]
  {
    hide Flat, Contents;
    ghost var c := Contents(m.segments);
    FlatStore(c, i, 0, bytes);
    assert Store(c[i], 0, bytes) == bytes;
    Assign(m.segments[i], bytes);
    assert Contents(m.segments) == c[i := bytes];
  }

  /** The core running: the memory becomes `mem`. */
  method Overwrite(m: CheatManager, mem: seq<byte>)
    requires m.Valid() && |mem| == m.totalMemorySize
    modifies m.segments
    ensures m.Valid() && m.Memory() == mem
  {
    hide Flat, Contents;
    var i, offset := 0, 0;
    FlatNone();
    assert Contents(m.segments)[..0] == [];
    while i < |m.segments|
      invariant i <= |m.segments| && m.Valid() && offset == |Flat(Contents(m.segments)[..i])|
      invariant Flat(Contents(m.segments)[..i]) <= mem
    {
      ghost var c := Contents(m.segments);
      FlatAt(c, i);
      var next := offset + m.segments[i].Length;
      Fill(m, i, mem[offset..next]);
      ghost var d := Contents(m.segments);
      assert d[..i] == c[..i];
      OffsetStep(d, i);
      assert mem[..offset] + mem[offset..next] == mem[..next];
      offset := next;
      i := i + 1;
    }
    assert Contents(m.segments)[..i] == Contents(m.segments);
  }

  /**
   * One operation of a session: the memory and the settings become those of the search, and the search runs; or a
   * match is deleted.
   */
  method PlayOp(m: CheatManager, op: Op)
    requires m.Searching() && m.segments != [] && ValidOp(op, m.totalMemorySize) && WellPacked(m.matches[..],
        m.searchBitSize)
    modifies m`searchExactValue, m`searchEqplusValue, m`searchEqminusValue, m`bigEndian, m`numMatches, m`cheats,
        m.matches, m.prevMemory, m.segments
    ensures m.Searching() && m.SearchState() == Step(old(m.SearchState()), m.searchBitSize, op)
    ensures m.cheats == old(m.cheats)
    ensures WellPacked(m.matches[..], m.searchBitSize)
  {
    hide Flat, Contents, LiveSlots, SlotPacked, Step, Aligned, SlotCount;
    ghost var ms, prev := m.matches[..], m.prevMemory[..];
    match op
    case Narrow(s) =>
      Overwrite(m, s.memory);
      m.searchExactValue, m.searchEqplusValue, m.searchEqminusValue := s.exactValue, s.eqplusValue, s.eqminusValue;
      m.bigEndian := s.bigEndian;
      assert m.matches[..] == ms && m.prevMemory[..] == prev;
      assert m.CurrentSearch(s.kind) == s;
      m.RunSearch(s.kind);
    case Delete(index) =>
      m.DeleteAt(index);
  }

  /** A whole session: initialise on the core's memory, then run any operations. */
  method PlaySession(m: CheatManager, descriptors: seq<Descriptor>, systemRam: array?<byte>, ops: seq<Op>)
    requires m.Valid() && m.Usable(FoundSegments(descriptors, systemRam)) && FoundSegments(descriptors, systemRam) != []
    requires WholeSegments(FoundSegments(descriptors, systemRam), m.searchBitSize)
    requires ValidOps(ops, |Flat(Contents(FoundSegments(descriptors, systemRam)))|)
    modifies m, FoundSegments(descriptors, systemRam)
    ensures m.Searching() && m.segments == FoundSegments(descriptors, systemRam) && WellPacked(m.matches[..],
        m.searchBitSize)
    ensures m.SearchState() == Run(m.searchBitSize, old(Flat(Contents(FoundSegments(descriptors, systemRam)))), ops)
    ensures m.numMatches == |Survivors(LiveSlots(m.matches[..], m.searchBitSize))|
    ensures m.cheats == old(m.cheats) && m.searchBitSize == old(m.searchBitSize)
    ensures fresh(m.matches) && fresh(m.prevMemory)
  {
    hide Flat, Contents, LiveSlots, SlotPacked, Step, Survivors, FoundSegments, StartingMatches, SlotCount;
    ghost var mem := Flat(Contents(FoundSegments(descriptors, systemRam)));
    m.InitializeMemory(descriptors, systemRam, true);
    var i := 0;
    assert ops[..0] == [];
    while i < |ops|
      invariant i <= |ops| && m.Searching() && m.segments == FoundSegments(descriptors, systemRam)
      invariant m.SearchState() == Run(m.searchBitSize, mem, ops[..i]) && WellPacked(m.matches[..], m.searchBitSize)
      invariant fresh(m.matches) && fresh(m.prevMemory)
      invariant m.cheats == old(m.cheats) && m.searchBitSize == old(m.searchBitSize)
    {
      assert ops[..i + 1][..i] == ops[..i];
      PlayOp(m, ops[i]);
      i := i + 1;
    }
    assert ops[..i] == ops;
    SessionCount(m.searchBitSize, mem, ops);
  }

  lemma FallenSlots(w: Width, mem: seq<byte>, ops: seq<Op>, bigEndian: bool)
    requires |mem| * 8 < WORD_SIZE && ValidOps(ops, |mem|) && AllSearches(ops, Lt, bigEndian)
    ensures var st := Run(w, mem, ops);
            forall j: nat | j < SlotCount(w, |mem|) && st.live[j] ::
              SlotValue(st.prev, w, bigEndian, j) + |ops| <= SlotValue(mem, w, bigEndian, j)
    ensures |ops| >= SlotBase(w) ==> Run(w, mem, ops).numMatches == 0
  {
    hide SlotValue, SlotCount, Run;
    assert ops[..|ops|] == ops;
    PrevAfter(w, mem, ops, |ops|);
    forall j: nat | j < SlotCount(w, |mem|) && Run(w, mem, ops).live[j]
      ensures SlotValue(Run(w, mem, ops).prev, w, bigEndian, j) + |ops| <= SlotValue(mem, w, bigEndian, j)
    {
      LtFalls(w, mem, ops, bigEndian, |ops|, j);
    }
    if |ops| >= SlotBase(w) {
      LtRunsOut(w, mem, ops, bigEndian);
    }
  }

  /**
   * A session of LT searches on the manager: every slot still live has fallen by at least as many as there were
   * searches, and once there have been as many as a slot has values the counter is zero.
   */
  method PlayFalling(m: CheatManager, descriptors: seq<Descriptor>, systemRam: array?<byte>, ops: seq<Op>,
                     bigEndian: bool)
    requires m.Valid() && m.Usable(FoundSegments(descriptors, systemRam)) && FoundSegments(descriptors, systemRam) != []
    requires WholeSegments(FoundSegments(descriptors, systemRam), m.searchBitSize)
    requires ValidOps(ops, |Flat(Contents(FoundSegments(descriptors, systemRam)))|)
    requires AllSearches(ops, Lt, bigEndian)
    modifies m, FoundSegments(descriptors, systemRam)
    ensures m.Searching() && m.searchBitSize == old(m.searchBitSize)
    ensures var w, before := m.searchBitSize, old(Flat(Contents(FoundSegments(descriptors, systemRam))));
            && |before| == m.totalMemorySize && |LiveSlots(m.matches[..], w)| == SlotCount(w, |before|)
            && forall j: nat | j < SlotCount(w, |before|) && LiveSlots(m.matches[..], w)[j] ::
                 SlotValue(m.prevMemory[..], w, bigEndian, j) + |ops| <= SlotValue(before, w, bigEndian, j)
    ensures |ops| >= SlotBase(m.searchBitSize) ==> m.numMatches == 0
  {
    hide Flat, Contents, LiveSlots, SlotPacked, Step, Survivors, FoundSegments, SlotValue, SlotCount, Run;
    ghost var mem, w := Flat(Contents(FoundSegments(descriptors, systemRam))), m.searchBitSize;
    PlaySession(m, descriptors, systemRam, ops);
    LiveCount(m.matches[..], w);
    FallenSlots(w, mem, ops, bigEndian);
  }

  /**
   * A session after which the core announces a memory map, the same or any other. The match bits and the stored memory
   * stay; the counter becomes the number of slots of the new memory, which is right exactly when that many are live.
   * With a new memory of the same size that means the session had dropped no slot.
   */
  method PlayThenRemap(m: CheatManager, descriptors: seq<Descriptor>, systemRam: array?<byte>, ops: seq<Op>,
                       next: seq<Descriptor>, nextRam: array?<byte>)
    requires m.Valid() && m.Usable(FoundSegments(descriptors, systemRam)) && FoundSegments(descriptors, systemRam) != []
    requires WholeSegments(FoundSegments(descriptors, systemRam), m.searchBitSize)
    requires ValidOps(ops, |Flat(Contents(FoundSegments(descriptors, systemRam)))|)
    requires Distinct(FoundSegments(next, nextRam)) && TotalLength(FoundSegments(next, nextRam)) * 8 < WORD_SIZE
    requires ActiveFit(m.cheats, FoundSegments(next, nextRam), TotalLength(FoundSegments(next, nextRam)))
    modifies m, FoundSegments(descriptors, systemRam), FoundSegments(next, nextRam)
    ensures m.Valid() && m.prevMemory != null && m.matches != null && m.segments == FoundSegments(next, nextRam)
    ensures |old(Flat(Contents(FoundSegments(descriptors, systemRam))))| * 8 < WORD_SIZE
    ensures var mem, w, total := old(Flat(Contents(FoundSegments(descriptors, systemRam)))), m.searchBitSize,
                                 TotalLength(FoundSegments(next, nextRam));
            var st := Run(w, mem, ops);
            && m.SearchState() == (if m.segments == [] then st else Recount(st, w, total))
            && (m.numMatches == |Survivors(st.live)|
                <==> m.segments == [] || SlotCount(w, total) == |Survivors(st.live)|)
            && (m.segments != [] && total == |mem| ==>
                  (m.numMatches == |Survivors(st.live)| <==> forall j | 0 <= j < |st.live| :: st.live[j]))
    ensures FoundSegments(next, nextRam) == FoundSegments(descriptors, systemRam) ==> m.Searching()
  {
    hide Flat, Contents, LiveSlots, SlotPacked, Step, Survivors, FoundSegments, StartingMatches, SlotCount, ActiveFit,
        Run, ActiveOnly, RunCheats, TotalLength;
    ghost var mem, w := Flat(Contents(FoundSegments(descriptors, systemRam))), m.searchBitSize;
    ghost var segs := FoundSegments(next, nextRam);
    PlaySession(m, descriptors, systemRam, ops);
    ghost var st := m.SearchState();
    FlatLength(segs);
    FoundFrom(next, nextRam);
    m.SetMemoryMaps(next, nextRam);
    FlatLength(segs);
    RecountExact(st, w, TotalLength(segs));
  }

  /** Switches on the cheats from index `start` on. */
  method EnableFrom(m: CheatManager, start: nat)
    requires start <= |m.cheats|
    modifies m`cheats
    ensures m.cheats == old(m.cheats[..start]) + EnableAll(old(m.cheats[start..]))
  {
    var i := start;
    while i < |m.cheats|
      invariant start <= i <= |m.cheats| == |old(m.cheats)|
      invariant forall k | 0 <= k < start || i <= k < |m.cheats| :: m.cheats[k] == old(m.cheats[k])
      invariant forall k | start <= k < i :: m.cheats[k] == Enable(old(m.cheats[k]))
    {
      m.cheats := m.cheats[i := Enable(m.cheats[i])];
      i := i + 1;
    }
  }

  /** The cheats made of matches fit the memory they were made from. */
  lemma AllFit(m: CheatManager, earlier: seq<Cheat>, source: seq<byte>, w: Width, live: seq<bool>)
    requires |source| == m.totalMemorySize < WORD_SIZE && Aligned(|source|, w) && |live| == SlotCount(w, |source|)
    requires WholeSegments(m.segments, w) && forall c | c in earlier :: !IsActive(c)
    requires m.cheats == earlier + EnableAll(MatchCodes(|earlier|, source, w, m.bigEndian, Survivors(live)))
    ensures ActiveFit(m.cheats, m.segments, m.totalMemorySize)
  {
    hide Fits, IsActive, Survivors;
    FreezeCodesFit(source, w, m.bigEndian, Survivors(live), |earlier|);
  }

  /**
   * Freezing: turn every match into a cheat, switch those on, let the core change the memory at will, apply the cheats.
   * Every live slot then has the value it had when the matches were copied, and every other slot what the core left
   * there.
   */
  method FreezeRun(m: CheatManager, later: seq<byte>)
    requires m.Searching() && m.memoryInitialized && |later| == m.totalMemorySize
    requires (forall c | c in m.cheats :: !IsActive(c)) && Wrap(m.numMatches + |m.cheats|) <= 100
    modifies m, m.segments
    ensures m.Valid() && |m.Memory()| == |later| == |old(m.Memory())|
    ensures var w, live := old(m.searchBitSize), old(LiveSlots(m.matches[..], m.searchBitSize));
            && |live| == SlotCount(w, |later|)
            && forall j: nat | j < |live| ::
                 SlotValue(m.Memory(), w, m.bigEndian, j) == SlotValue(if live[j] then old(m.Memory()) else later,
                     w, m.bigEndian, j)
  {
    hide Flat, Contents, LiveSlots, SlotValue, MatchCodes, RunCheats, ActiveOnly, Survivors, EnableAll, IsActive,
        Fits, SlotCount;
    ghost var earlier, source, w, live := m.cheats, m.Memory(), m.searchBitSize, LiveSlots(m.matches[..],
        m.searchBitSize);
    var start := |m.cheats|;
    LiveCount(m.matches[..], w);
    m.WholeMemory();
    m.AddMatches();
    assert live[..|live|] == live;
    EnableFrom(m, start);
    Overwrite(m, later);
    ghost var codes := MatchCodes(start, source, w, m.bigEndian, Survivors(live));
    assert m.cheats == earlier + EnableAll(codes);
    AllFit(m, earlier, source, w, live);
    m.ApplyRetroCheats([], null);
    forall j: nat | j < |live|
      ensures SlotValue(m.Memory(), w, m.bigEndian, j) == SlotValue(if live[j] then source else later, w,
          m.bigEndian, j)
    {
      FreezeMatches(earlier, source, later, w, m.bigEndian, live, j, m.bigEndian);
      RunNone(later, m.bigEndian);
    }
  }

  /** Saving the cheats of one manager and loading the file into another, or into the same one. */
  method FileRun(a: CheatManager, b: CheatManager, append: bool) returns (loaded: bool)
    requires a.cheats != [] && b.Valid() && |a.cheats| + |b.cheats| < WORD_SIZE
    modifies b
    ensures b.Valid() && loaded
    ensures var saved, earlier := old(a.cheats), if append then old(b.cheats) else [];
            b.cheats == earlier + seq(|saved|, i requires 0 <= i < |saved| => CheatFile.Restored(saved[i],
                |earlier| + i))
  {
    hide CheatFile.FileEntries, CheatFile.LoadEntries, CheatFile.CountAnnounced, CheatFile.Restored, CheatFile.Blanks;
    var saved, file := a.SaveCheats();
    ghost var earlier := if append then b.cheats else [];
    CheatFile.FileRoundTrip(file, a.cheats, earlier);
    loaded := b.LoadCheats(Some(file), append);
  }

  function Least(a: int, b: int): int {
    if a < b then a else b
  }

  /** The slot of the n-th save: the places of the ring in turn, from slot 0 on. */
  function SlotAfter(n: nat, maxKeep: nat): nat
    requires n > 0
  {
    (n - 1) % (maxKeep + 1)
  }

  lemma NextSlot(n: nat, maxKeep: nat)
    ensures SlotAfter(1, maxKeep) == 0
    ensures n > 0 ==> SlotAfter(n, maxKeep) <= maxKeep
    ensures n > 0 ==> SlotAfter(n + 1, maxKeep)
                      == if SlotAfter(n, maxKeep) == maxKeep then 0 else SlotAfter(n, maxKeep) + 1
  {
    if n > 0 {
      var places := maxKeep + 1;
      var q, r := (n - 1) / places, (n - 1) % places;
      if r == maxKeep {
        ModUnique(n, places, q + 1, 0);
      } else {
        ModUnique(n, places, q, r + 1);
      }
    }
  }

  lemma WrapNone()
    ensures forall x: word :: Wrap(x) == x
  {
  }

  lemma {:induction false} PlaceOfSave(maxKeep: word, files: seq<word>, n: nat, back: nat)
    requires 1 <= maxKeep && 0 < n && back < |files| <= n && InSaveOrder(maxKeep, files, SlotAfter(n, maxKeep))
    requires forall i | i in files :: i <= maxKeep
    ensures files[|files| - 1 - back] == SlotAfter(n - back, maxKeep)
  {
    hide SlotAfter;
    if back > 0 {
      PlaceOfSave(maxKeep, files, n, back - 1);
      NextSlot(n - back, maxKeep);
      assert files[|files| - 1 - back] in files;
    }
  }

  /** In save order after `n` saves the states are those of the last ones, each in the slot of its save. */
  lemma PlacesOfSaves(maxKeep: word, files: seq<word>, n: nat)
    requires 1 <= maxKeep && 0 < n && |files| <= n && InSaveOrder(maxKeep, files, SlotAfter(n, maxKeep))
    requires forall i | i in files :: i <= maxKeep
    ensures forall k | 0 <= k < |files| :: files[k] == (n - |files| + k) % (maxKeep + 1)
  {
    forall k | 0 <= k < |files|
      ensures files[k] == (n - |files| + k) % (maxKeep + 1)
    {
      PlaceOfSave(maxKeep, files, n, |files| - 1 - k);
    }
  }

  lemma ShapeWithin(maxKeep: word, files: seq<word>, slot: int)
    requires maxKeep >= 1 && SavedShape(maxKeep, files, slot)
    ensures |files| <= maxKeep && forall i | i in files :: i <= maxKeep
  {
  }

  lemma LastSaves(ring: SaveStateRing, n: nat)
    requires ring.Valid() && ring.Saved() && InSaveOrder(ring.maxKeep, ring.files, ring.stateSlot)
    requires 0 < n && |ring.files| <= n && ring.stateSlot == SlotAfter(n, ring.maxKeep)
    ensures ring.stateSlot == (n - 1) % (ring.maxKeep + 1)
    ensures forall k | 0 <= k < |ring.files| :: ring.files[k] == (n - |ring.files| + k) % (ring.maxKeep + 1)
  {
    hide InSaveOrder;
    ShapeWithin(ring.maxKeep, ring.files, ring.stateSlot);
    PlacesOfSaves(ring.maxKeep, ring.files, n);
  }

  /**
   * Any number of auto-indexed saves from an empty directory, which lists its files in any order every time: at most K
   * states are kept, the last ones saved, in consecutive places of the ring 0..K.
   */
  method SaveRun(ring: SaveStateRing, n: nat, arrange: (nat, seq<word>) -> seq<word>)
    requires ring.Valid() && ring.Fresh()
    requires forall i: nat, files: seq<word> :: ListingOf(arrange(i, files), files)
    modifies ring
    ensures ring.Valid()
    ensures |ring.files| == if n < ring.maxKeep then n else ring.maxKeep
    ensures n > 0 ==> ring.InRing() && InSaveOrder(ring.maxKeep, ring.files, ring.stateSlot)
    ensures n > 0 ==> ring.stateSlot == (n - 1) % (ring.maxKeep + 1)
    ensures forall k | 0 <= k < |ring.files| :: ring.files[k] == (n - |ring.files| + k) % (ring.maxKeep + 1)
  {
    hide RingShape, InSaveOrder, DistinctSlots, FullRange, ListingOf, Wrap, SlotAfter;
    WrapNone();
    var i := 0;
    while i < n
      invariant 0 <= i <= n && ring.Valid() && (i == 0 ==> ring.Fresh())
      invariant |ring.files| == if i < ring.maxKeep then i else ring.maxKeep
      invariant i > 0 ==> ring.InRing() && InSaveOrder(ring.maxKeep, ring.files, ring.stateSlot)
      invariant i > 0 ==> ring.stateSlot == SlotAfter(i, ring.maxKeep)
    {
      NextSlot(i, ring.maxKeep);
      ring.Save(arrange(i, ring.files));
      i := i + 1;
    }
    if n > 0 {
      LastSaves(ring, n);
    }
  }

  /** One save, whichever of the file and the scan comes first. */
  method SaveOnce(ring: SaveStateRing, landsFirst: bool, i: nat, arrange: (nat, seq<word>) -> seq<word>)
    requires ring.Valid() && (ring.Fresh() || (ring.Saved() && InSaveOrder(ring.maxKeep, ring.files, ring.stateSlot)))
    requires forall i: nat, files: seq<word> :: ListingOf(arrange(i, files), files)
    modifies ring
    ensures ring.Valid() && ring.Saved() && InSaveOrder(ring.maxKeep, ring.files, ring.stateSlot)
    ensures ring.stateSlot == old(ring.NextAutoIndex())
    ensures var full := if landsFirst then ring.maxKeep - 1 else ring.maxKeep;
            |ring.files| == if |old(ring.files)| < full then |old(ring.files)| + 1 else |old(ring.files)|
  {
    hide RingShape, Gapped, InSaveOrder, DistinctSlots, FullRange, ListingOf, Landed;
    if landsFirst {
      ring.SaveLandingFirst(arrange(i, Landed(ring.files, ring.NextAutoIndex())));
    } else {
      ring.Save(arrange(i, ring.files));
    }
  }

  /**
   * The same when the file of each save may land before or after its scan: at most K states are kept and at least the
   * last min(n, K - 1), still the last ones saved in consecutive places; when every file lands first, exactly that
   * many.
   */
  method SaveRunAnyOrder(ring: SaveStateRing, landsFirst: seq<bool>, arrange: (nat, seq<word>) -> seq<word>)
    requires ring.Valid() && ring.Fresh()
    requires forall i: nat, files: seq<word> :: ListingOf(arrange(i, files), files)
    modifies ring
    ensures ring.Valid()
    ensures Least(|landsFirst|, ring.maxKeep - 1) <= |ring.files| <= Least(|landsFirst|, ring.maxKeep)
    ensures (forall i | 0 <= i < |landsFirst| :: landsFirst[i]) ==>
              |ring.files| == Least(|landsFirst|, ring.maxKeep - 1)
    ensures landsFirst != [] ==> ring.Saved() && InSaveOrder(ring.maxKeep, ring.files, ring.stateSlot)
    ensures landsFirst != [] ==> ring.stateSlot == (|landsFirst| - 1) % (ring.maxKeep + 1)
    ensures forall k | 0 <= k < |ring.files| ::
              ring.files[k] == (|landsFirst| - |ring.files| + k) % (ring.maxKeep + 1)
  {
    hide RingShape, Gapped, InSaveOrder, DistinctSlots, FullRange, ListingOf, Landed, Wrap, SavedShape, SlotAfter;
    WrapNone();
    var i := 0;
    while i < |landsFirst|
      invariant 0 <= i <= |landsFirst| && ring.Valid() && (i == 0 ==> ring.Fresh())
      invariant Least(i, ring.maxKeep - 1) <= |ring.files| <= Least(i, ring.maxKeep)
      invariant (forall k | 0 <= k < i :: landsFirst[k]) ==> |ring.files| < ring.maxKeep
      invariant i > 0 ==> ring.Saved() && InSaveOrder(ring.maxKeep, ring.files, ring.stateSlot)
      invariant i > 0 ==> ring.stateSlot == SlotAfter(i, ring.maxKeep)
    {
      NextSlot(i, ring.maxKeep);
      SaveOnce(ring, landsFirst[i], i, arrange);
      i := i + 1;
    }
    if i > 0 {
      LastSaves(ring, i);
    }
  }

  // ---- saves and rescans in any order ----

  /** A save whose scan runs before its file lands, one whose file lands first, or a scan when content is loaded. */
  datatype RingOp = ScanFirst | LandFirst | Rescan

  /** How many saves a run has made, how many states it keeps, and whether no rescan has been misled. */
  datatype Tally = Tally(saves: nat, kept: nat, right: bool)

  /** A rescan at this point takes another slot for the last save. */
  predicate Misled(maxKeep: nat, t: Tally) {
    t.saves > 0 && t.kept < maxKeep && SlotAfter(t.saves, maxKeep) == maxKeep - 1
  }

  function Count(maxKeep: nat, t: Tally, op: RingOp): Tally
    requires maxKeep >= 1
  {
    match op
    case ScanFirst => t.(saves := t.saves + 1, kept := if t.kept < maxKeep then t.kept + 1 else t.kept)
    case LandFirst => t.(saves := t.saves + 1, kept := if t.kept < maxKeep - 1 then t.kept + 1 else t.kept)
    case Rescan => t.(right := t.right && !Misled(maxKeep, t))
  }

  function TallyOf(maxKeep: nat, ops: seq<RingOp>): Tally
    requires maxKeep >= 1
  {
    if ops == [] then Tally(0, 0, true)
    else Count(maxKeep, TallyOf(maxKeep, ops[..|ops| - 1]), ops[|ops| - 1])
  }

  lemma SlotOfFew(n: nat, maxKeep: nat)
    requires 0 < n <= maxKeep
    ensures SlotAfter(n, maxKeep) == n - 1
  {
    ModUnique(n - 1, maxKeep + 1, 0, n - 1);
  }

  /** Without files that land first no rescan is misled, and as many states are kept as fit. */
  lemma {:induction false} ScanFirstRight(maxKeep: nat, ops: seq<RingOp>)
    requires maxKeep >= 1 && LandFirst !in ops
    ensures var t := TallyOf(maxKeep, ops); t.right && t.kept == Least(t.saves, maxKeep)
  {
    hide SlotAfter;
    if ops != [] {
      var front := ops[..|ops| - 1];
      assert forall op | op in front :: op in ops;
      ScanFirstRight(maxKeep, front);
      var t := TallyOf(maxKeep, front);
      if 0 < t.saves <= maxKeep {
        SlotOfFew(t.saves, maxKeep);
      }
    }
  }

  /** The ring is as a run of saves alone leaves it: `t.saves` of them made, `t.kept` states kept, in save order. */
  ghost predicate AsSaved(ring: SaveStateRing, t: Tally)
    reads ring
  {
    && |ring.files| == t.kept
    && (t.saves == 0 ==> ring.Fresh())
    && (t.saves > 0 ==> ring.Saved() && InSaveOrder(ring.maxKeep, ring.files, ring.stateSlot)
                        && ring.stateSlot == SlotAfter(t.saves, ring.maxKeep))
  }

  /** One operation of a run. */
  method RingStep(ring: SaveStateRing, op: RingOp, i: nat, arrange: (nat, seq<word>) -> seq<word>, ghost t: Tally)
    requires ring.Valid() && WithinLimit(ring.maxKeep, ring.files) && |ring.files| <= ring.maxKeep
    requires forall i: nat, files: seq<word> :: ListingOf(arrange(i, files), files)
    requires t.right ==> AsSaved(ring, t)
    modifies ring
    ensures ring.Valid() && WithinLimit(ring.maxKeep, ring.files) && |ring.files| <= ring.maxKeep
    ensures Count(ring.maxKeep, t, op).right ==> AsSaved(ring, Count(ring.maxKeep, t, op))
    ensures t.right && t.saves > 0 && op == Rescan ==>
              (ring.stateSlot == SlotAfter(t.saves, ring.maxKeep) <==> !Misled(ring.maxKeep, t))
  {
    hide RingShape, Gapped, InSaveOrder, DistinctSlots, FullRange, ListingOf, Landed, SlotAfter, FirstFree,
        AfterSave, AfterLanding, Named, Prior, Wrap;
    WrapNone();
    NextSlot(t.saves, ring.maxKeep);
    match op
    case ScanFirst => ring.Save(arrange(i, ring.files));
    case LandFirst => ring.SaveLandingFirst(arrange(i, Landed(ring.files, ring.NextAutoIndex())));
    case Rescan => ring.SetAutoIndex(true, true, arrange(i, ring.files));
  }

  lemma EmptyWithin(ring: SaveStateRing)
    requires ring.Valid() && ring.Fresh()
    ensures WithinLimit(ring.maxKeep, ring.files) && AsSaved(ring, Tally(0, 0, true))
  {
  }

  /** With as many states as fit there is no gap of two. */
  lemma KeptInRing(ring: SaveStateRing, t: Tally)
    requires ring.Valid() && AsSaved(ring, t) && t.kept == Least(t.saves, ring.maxKeep)
    ensures |ring.files| == t.kept && (t.saves > 0 ==> ring.InRing())
  {
    hide SlotAfter, DistinctSlots, InSaveOrder;
    if 0 < t.saves <= ring.maxKeep {
      SlotOfFew(t.saves, ring.maxKeep);
    }
  }

  lemma PlacesAsSaved(ring: SaveStateRing, t: Tally)
    requires ring.Valid() && AsSaved(ring, t) && t.kept <= t.saves
    ensures |ring.files| == t.kept && (t.saves > 0 ==> ring.stateSlot == (t.saves - 1) % (ring.maxKeep + 1))
    ensures forall k | 0 <= k < |ring.files| ::
              ring.files[k] == (t.saves - |ring.files| + k) % (ring.maxKeep + 1)
  {
    hide InSaveOrder, RingShape, Gapped;
    if t.saves > 0 {
      LastSaves(ring, t.saves);
    }
  }

  /** The saves of a run are its operations that are not rescans, and no more states are kept. */
  lemma {:induction false} TallySaves(maxKeep: nat, ops: seq<RingOp>)
    requires maxKeep >= 1
    ensures TallyOf(maxKeep, ops).saves == |ops| - multiset(ops)[Rescan]
    ensures TallyOf(maxKeep, ops).kept <= TallyOf(maxKeep, ops).saves
  {
    if ops != [] {
      var front, last := ops[..|ops| - 1], ops[|ops| - 1];
      assert ops == front + [last];
      TallySaves(maxKeep, front);
    }
  }

  lemma NoTally(maxKeep: nat)
    requires maxKeep >= 1
    ensures TallyOf(maxKeep, []) == Tally(0, 0, true)
  {
  }

  lemma TallyNext(maxKeep: nat, ops: seq<RingOp>, i: nat)
    requires maxKeep >= 1 && i < |ops|
    ensures TallyOf(maxKeep, ops[..i + 1]) == Count(maxKeep, TallyOf(maxKeep, ops[..i]), ops[i])
    ensures ops[i] == Rescan ==>
              TallyOf(maxKeep, ops[..i + 1]).right
              == (TallyOf(maxKeep, ops[..i]).right && !Misled(maxKeep, TallyOf(maxKeep, ops[..i])))
  {
    hide Misled;
    assert ops[..i + 1][..i] == ops[..i];
  }

  /**
   * Any run of saves, of either order, and rescans, from an empty directory listed in any order every time. At most K
   * states of slots 0..K are kept. Until a rescan is misled the states are the last ones saved, in consecutive places,
   * as if there had been no rescan; a rescan gives the slot of the last save exactly when it is not misled; and without
   * files that land first none is, and the last min(n, K) states are kept.
   */
  method RingRun(ring: SaveStateRing, ops: seq<RingOp>, arrange: (nat, seq<word>) -> seq<word>)
    requires ring.Valid() && ring.Fresh()
    requires forall i: nat, files: seq<word> :: ListingOf(arrange(i, files), files)
    modifies ring
    ensures ring.Valid() && WithinLimit(ring.maxKeep, ring.files) && |ring.files| <= ring.maxKeep
    ensures TallyOf(ring.maxKeep, ops).right ==> AsSaved(ring, TallyOf(ring.maxKeep, ops))
    ensures TallyOf(ring.maxKeep, ops).right ==>
              var n := |ops| - multiset(ops)[Rescan];
              && |ring.files| <= n && (n > 0 ==> ring.stateSlot == (n - 1) % (ring.maxKeep + 1))
              && forall k | 0 <= k < |ring.files| :: ring.files[k] == (n - |ring.files| + k) % (ring.maxKeep + 1)
    ensures ops != [] && ops[|ops| - 1] == Rescan ==>
              var t := TallyOf(ring.maxKeep, ops[..|ops| - 1]);
              t.right && t.saves > 0 ==>
                (ring.stateSlot == SlotAfter(t.saves, ring.maxKeep) <==> TallyOf(ring.maxKeep, ops).right)
    ensures LandFirst !in ops ==>
              AsSaved(ring, TallyOf(ring.maxKeep, ops))
              && |ring.files| == Least(TallyOf(ring.maxKeep, ops).saves, ring.maxKeep)
              && (TallyOf(ring.maxKeep, ops).saves > 0 ==> ring.InRing())
  {
    hide RingShape, Gapped, InSaveOrder, DistinctSlots, ListingOf, SlotAfter, AsSaved, Misled, TallyOf, Count,
        WithinLimit, Least;
    EmptyWithin(ring);
    NoTally(ring.maxKeep);
    var i := 0;
    assert ops[..0] == [];
    while i < |ops|
      invariant 0 <= i <= |ops| && ring.Valid() && WithinLimit(ring.maxKeep, ring.files) && |ring.files| <= ring.maxKeep
      invariant TallyOf(ring.maxKeep, ops[..i]).right ==> AsSaved(ring, TallyOf(ring.maxKeep, ops[..i]))
      invariant i > 0 && ops[i - 1] == Rescan ==>
                  var t := TallyOf(ring.maxKeep, ops[..i - 1]);
                  t.right && t.saves > 0 ==>
                    (ring.stateSlot == SlotAfter(t.saves, ring.maxKeep) <==> TallyOf(ring.maxKeep, ops[..i]).right)
    {
      TallyNext(ring.maxKeep, ops, i);
      RingStep(ring, ops[i], i, arrange, TallyOf(ring.maxKeep, ops[..i]));
      i := i + 1;
    }
    assert ops[..i] == ops;
    TallySaves(ring.maxKeep, ops);
    if TallyOf(ring.maxKeep, ops).right {
      PlacesAsSaved(ring, TallyOf(ring.maxKeep, ops));
    }
    if LandFirst !in ops {
      ScanFirstRight(ring.maxKeep, ops);
      KeptInRing(ring, TallyOf(ring.maxKeep, ops));
    }
  }
}
