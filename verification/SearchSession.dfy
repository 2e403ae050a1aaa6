/** What a whole memory-search session means: which slots are live, how many, and in which order they are listed. */
module SearchSession {
  import opened Words
  import opened Slots

  datatype SearchType = Exact | Lt | Lte | Gt | Gte | Eq | Neq | EqPlus | EqMinus

  /** One search: its kind and operands, the byte order it reads with and the memory it reads. */
  datatype Search = Search(kind: SearchType, exactValue: word, eqplusValue: word, eqminusValue: word,
                           bigEndian: bool, memory: seq<byte>)

  /** Whether a slot whose value went from `prev` to `curr` matches. */
  predicate Matches(s: Search, curr: word, prev: word) {
    match s.kind
    case Exact => curr == s.exactValue
    case Lt => curr < prev
    case Lte => curr <= prev
    case Gt => curr > prev
    case Gte => curr >= prev
    case Eq => curr == prev
    case Neq => curr != prev
    case EqPlus => curr == Wrap(prev + s.eqplusValue)
    case EqMinus => curr == Wrap(prev - s.eqminusValue)
  }

  /** How the kinds relate: complements, unions and inverses, with 32-bit wrap in the last two. */
  lemma SearchKinds(s: Search, curr: word, prev: word)
    ensures Matches(s.(kind := Lt), curr, prev) <==> !Matches(s.(kind := Gte), curr, prev)
    ensures Matches(s.(kind := Gt), curr, prev) <==> !Matches(s.(kind := Lte), curr, prev)
    ensures Matches(s.(kind := Gt), curr, prev) <==> Matches(s.(kind := Lt), prev, curr)
    ensures Matches(s.(kind := Lte), curr, prev)
            <==> Matches(s.(kind := Lt), curr, prev) || Matches(s.(kind := Eq), curr, prev)
    ensures Matches(s.(kind := Neq), curr, prev) <==> !Matches(s.(kind := Eq), curr, prev)
    ensures Matches(s.(kind := EqPlus), curr, prev)
            <==> Matches(s.(kind := EqMinus, eqminusValue := s.eqplusValue), prev, curr)
    ensures Matches(s.(kind := Exact, exactValue := prev), curr, 0) <==> Matches(s.(kind := Eq), curr, prev)
  {
  }

  // ---- the list of survivors ----

  /** The live slots in the order a scan meets them. */
  function Survivors(live: seq<bool>): (r: seq<nat>)
    ensures |r| <= |live|
    ensures forall k | 0 <= k < |r| :: r[k] < |live| && live[r[k]]
  {
    if live == [] then []
    else
      var n := |live| - 1;
      Survivors(live[..n]) + (if live[n] then [n] else [])
  }

  /**
   * The list is strictly increasing and holds every live slot, so k |-> Survivors(live)[k] is a bijection onto them.
   */
  lemma {:induction false} SurvivorsBijection(live: seq<bool>)
    ensures forall i, k | 0 <= i < k < |Survivors(live)| :: Survivors(live)[i] < Survivors(live)[k]
    ensures forall j | 0 <= j < |live| :: live[j] <==> j in Survivors(live)
  {
    if live != [] {
      var n := |live| - 1;
      SurvivorsBijection(live[..n]);
      forall j | 0 <= j < |live|
        ensures live[j] <==> j in Survivors(live)
      {
        assert j < n ==> live[..n][j] == live[j];
      }
    }
  }

  /** A scan that has passed `j` slots has seen the first |Survivors(live[..j])| survivors. */
  lemma {:induction false} SurvivorPrefix(live: seq<bool>, j: nat)
    requires j <= |live|
    ensures Survivors(live[..j]) <= Survivors(live)
    ensures j < |live| && live[j] ==> |Survivors(live[..j])| < |Survivors(live)|
                                      && Survivors(live)[|Survivors(live[..j])|] == j
  {
    if j == |live| {
      assert live[..j] == live;
    } else {
      var n := |live| - 1;
      SurvivorPrefix(live[..n], j);
      assert live[..n][..j] == live[..j];
    }
  }

  /** One step of the scan. */
  lemma SurvivorStep(live: seq<bool>, j: nat)
    requires j < |live|
    ensures Survivors(live[..j + 1]) == Survivors(live[..j]) + (if live[j] then [j] else [])
  {
    assert live[..j + 1][..j] == live[..j];
  }

  /** Dropping the k-th survivor removes the k-th entry of the list and keeps the rest in order. */
  lemma {:induction false} SurvivorsDrop(live: seq<bool>, k: nat)
    requires k < |Survivors(live)|
    ensures Survivors(live[Survivors(live)[k] := false]) == Survivors(live)[..k] + Survivors(live)[k + 1..]
  {
    var n := |live| - 1;
    var s := Survivors(live);
    var dropped := live[s[k] := false];
    if k == |Survivors(live[..n])| {
      assert s[k] == n && dropped[..n] == live[..n];
    } else {
      SurvivorsDrop(live[..n], k);
      assert dropped[..n] == live[..n][s[k] := false];
    }
  }

  /** Dropping live slot `j` makes the list one shorter. */
  lemma DropOne(live: seq<bool>, j: nat)
    requires j < |live| && live[j]
    ensures |Survivors(live[j := false])| == |Survivors(live)| - 1
  {
    SurvivorPrefix(live, j);
    SurvivorsDrop(live, |Survivors(live[..j])|);
  }

  lemma {:induction false} AllSurvive(live: seq<bool>)
    requires forall j | 0 <= j < |live| :: live[j]
    ensures |Survivors(live)| == |live|
  {
    if live != [] {
      AllSurvive(live[..|live| - 1]);
    }
  }

  /** Filtering never adds survivors. */
  lemma {:induction false} FewerSurvive(live: seq<bool>, fewer: seq<bool>)
    requires |live| == |fewer| && forall j | 0 <= j < |live| :: fewer[j] ==> live[j]
    ensures |Survivors(fewer)| <= |Survivors(live)|
    ensures |Survivors(fewer)| == |Survivors(live)| ==> fewer == live
  {
    if live != [] {
      var n := |live| - 1;
      FewerSurvive(live[..n], fewer[..n]);
      if |Survivors(fewer)| == |Survivors(live)| {
        assert fewer == fewer[..n] + [fewer[n]] && live == live[..n] + [live[n]];
      }
    }
  }

  /** Splitting the live slots in two splits their number. */
  lemma {:induction false} SplitSurvivors(live: seq<bool>, some: seq<bool>, others: seq<bool>)
    requires |live| == |some| == |others|
    requires forall j | 0 <= j < |live| :: live[j] == (some[j] || others[j]) && !(some[j] && others[j])
    ensures |Survivors(some)| + |Survivors(others)| == |Survivors(live)|
  {
    if live != [] {
      var n := |live| - 1;
      SplitSurvivors(live[..n], some[..n], others[..n]);
    }
  }

  // ---- sessions ----

  datatype Op = Narrow(search: Search) | Delete(index: word)

  /** The search state: live slots, the stored memory and the counter. */
  datatype State = State(live: seq<bool>, prev: seq<byte>, numMatches: word)

  /** Slot `j` matches search `s` when the stored memory is `prev`. */
  predicate Keeps(s: Search, w: Width, prev: seq<byte>, j: nat)
    requires |s.memory| == |prev| && j < SlotCount(w, |prev|)
  {
    Matches(s, SlotValue(s.memory, w, s.bigEndian, j), SlotValue(prev, w, s.bigEndian, j))
  }

  function Filter(s: Search, w: Width, prev: seq<byte>, live: seq<bool>): (r: seq<bool>)
    requires |s.memory| == |prev| && |live| == SlotCount(w, |prev|)
  {
    seq(|live|, j requires 0 <= j < |live| => live[j] && Keeps(s, w, prev, j))
  }

  /**
   * A search and its complement on the same memories divide the matches between them: LT and GTE, GT and LTE, EQ and
   * NEQ.
   */
  lemma ComplementsDivide(s: Search, w: Width, prev: seq<byte>, live: seq<bool>)
    requires |s.memory| == |prev| && |live| == SlotCount(w, |prev|)
    ensures |Survivors(Filter(s.(kind := Lt), w, prev, live))| + |Survivors(Filter(s.(kind := Gte), w, prev, live))|
            == |Survivors(live)|
    ensures |Survivors(Filter(s.(kind := Gt), w, prev, live))| + |Survivors(Filter(s.(kind := Lte), w, prev, live))|
            == |Survivors(live)|
    ensures |Survivors(Filter(s.(kind := Eq), w, prev, live))| + |Survivors(Filter(s.(kind := Neq), w, prev, live))|
            == |Survivors(live)|
  {
    hide Matches, SlotValue, Survivors, SlotCount;
    forall j: nat | j < |live|
      ensures Keeps(s.(kind := Lt), w, prev, j) <==> !Keeps(s.(kind := Gte), w, prev, j)
      ensures Keeps(s.(kind := Gt), w, prev, j) <==> !Keeps(s.(kind := Lte), w, prev, j)
      ensures Keeps(s.(kind := Eq), w, prev, j) <==> !Keeps(s.(kind := Neq), w, prev, j)
    {
      SearchKinds(s, SlotValue(s.memory, w, s.bigEndian, j), SlotValue(prev, w, s.bigEndian, j));
    }
    SplitSurvivors(live, Filter(s.(kind := Lt), w, prev, live), Filter(s.(kind := Gte), w, prev, live));
    SplitSurvivors(live, Filter(s.(kind := Gt), w, prev, live), Filter(s.(kind := Lte), w, prev, live));
    SplitSurvivors(live, Filter(s.(kind := Eq), w, prev, live), Filter(s.(kind := Neq), w, prev, live));
  }

  /** `if (num_matches > 0) num_matches--`, `n` times. */
  function CountDown(numMatches: word, n: nat): word {
    if n <= numMatches then numMatches - n else 0
  }

  /** The slot DELETE, VIEW or COPY with this index acts on, if any. */
  function Target(st: State, index: word): (t: int)
    ensures -1 <= t < |st.live|
    ensures t >= 0 ==> st.live[t]
  {
    if index > Wrap(st.numMatches - 1) || index >= |Survivors(st.live)| then -1
    else Survivors(st.live)[index]
  }

  predicate ValidOp(op: Op, size: nat) {
    op.Narrow? ==> |op.search.memory| == size
  }

  ghost predicate ValidState(st: State, w: Width) {
    |st.live| == SlotCount(w, |st.prev|)
  }

  function Step(st: State, w: Width, op: Op): (r: State)
    requires ValidState(st, w) && ValidOp(op, |st.prev|)
    ensures ValidState(r, w) && |r.prev| == |st.prev|
  {
    match op
    case Narrow(s) =>
      var live := Filter(s, w, st.prev, st.live);
      FewerSurvive(st.live, live);
      State(live, s.memory, CountDown(st.numMatches, |Survivors(st.live)| - |Survivors(live)|))
    case Delete(index) =>
      var t := Target(st, index);
      if t < 0 then st else State(st.live[t := false], st.prev, CountDown(st.numMatches, 1))
  }

  /** The state a search initialisation on memory `mem` leaves. */
  function Start(w: Width, mem: seq<byte>): (st: State)
    requires |mem| * 8 < WORD_SIZE
    ensures ValidState(st, w)
  {
    StartingCount(w, |mem|);
    State(seq(SlotCount(w, |mem|), _ => true), mem, StartingMatches(w, |mem|))
  }

  predicate ValidOps(ops: seq<Op>, size: nat) {
    forall i | 0 <= i < |ops| :: ValidOp(ops[i], size)
  }

  function Run(w: Width, mem: seq<byte>, ops: seq<Op>): (st: State)
    requires |mem| * 8 < WORD_SIZE && ValidOps(ops, |mem|)
    ensures ValidState(st, w) && |st.prev| == |mem|
  {
    if ops == [] then Start(w, mem)
    else Step(Run(w, mem, ops[..|ops| - 1]), w, ops[|ops| - 1])
  }

  /** The memory of the last search in `ops`, or the initial memory. */
  function LastMemory(mem: seq<byte>, ops: seq<Op>): seq<byte> {
    if ops == [] then mem
    else
      var last := ops[|ops| - 1];
      if last.Narrow? then last.search.memory else LastMemory(mem, ops[..|ops| - 1])
  }

  lemma {:induction false} LastMemorySize(mem: seq<byte>, ops: seq<Op>)
    requires ValidOps(ops, |mem|)
    ensures |LastMemory(mem, ops)| == |mem|
  {
    if ops != [] {
      LastMemorySize(mem, ops[..|ops| - 1]);
    }
  }

  /**
   * `op` leaves slot `j` live: the search matches against memory `prev`, or the deletion, done in state `st`, is of
   * another slot.
   */
  predicate Spares(st: State, prev: seq<byte>, w: Width, op: Op, j: nat)
    requires |prev| == |st.prev| && ValidState(st, w) && ValidOp(op, |prev|) && j < |st.live|
  {
    match op
    case Narrow(s) => Keeps(s, w, prev, j)
    case Delete(index) => Target(st, index) != j
  }

  lemma StepSpares(st: State, w: Width, op: Op, j: nat)
    requires ValidState(st, w) && ValidOp(op, |st.prev|) && j < |st.live|
    ensures Step(st, w, op).live[j] <==> st.live[j] && Spares(st, st.prev, w, op, j)
  {
  }

  /** The memory kept for the next search is the last one searched. */
  lemma {:induction false} SessionMemory(w: Width, mem: seq<byte>, ops: seq<Op>)
    requires |mem| * 8 < WORD_SIZE && ValidOps(ops, |mem|)
    ensures Run(w, mem, ops).prev == LastMemory(mem, ops)
  {
    if ops != [] {
      SessionMemory(w, mem, ops[..|ops| - 1]);
    }
  }

  /** Operation `i` of a session spares slot `j`; a search compares with the memory of the search before it. */
  ghost predicate SparedAt(w: Width, mem: seq<byte>, ops: seq<Op>, i: nat, j: nat)
    requires |mem| * 8 < WORD_SIZE && ValidOps(ops, |mem|) && i < |ops| && j < SlotCount(w, |mem|)
  {
    LastMemorySize(mem, ops[..i]);
    Spares(Run(w, mem, ops[..i]), LastMemory(mem, ops[..i]), w, ops[i], j)
  }

  /** A slot is live after a session exactly when every search matched it and no deletion hit it. */
  lemma {:induction false} SessionHistory(w: Width, mem: seq<byte>, ops: seq<Op>, n: nat, j: nat)
    requires |mem| * 8 < WORD_SIZE && ValidOps(ops, |mem|) && n <= |ops| && j < SlotCount(w, |mem|)
    ensures Run(w, mem, ops[..n]).live[j] <==> forall i: nat | i < n :: SparedAt(w, mem, ops, i, j)
  {
    hide Step, Spares, Keeps, LastMemory;
    if n == 0 {
      assert ops[..n] == [];
    } else {
      var front := ops[..n - 1];
      SessionHistory(w, mem, ops, n - 1, j);
      SessionMemory(w, mem, front);
      StepSpares(Run(w, mem, front), w, ops[n - 1], j);
      assert ops[..n][..n - 1] == front;
      assert Run(w, mem, ops[..n]) == Step(Run(w, mem, front), w, ops[n - 1]);
      assert Run(w, mem, ops[..n]).live[j] <==> Run(w, mem, front).live[j] && SparedAt(w, mem, ops, n - 1, j);
    }
  }

  /** The counter equals the number of live slots in every state of every session. */
  lemma {:induction false} SessionCount(w: Width, mem: seq<byte>, ops: seq<Op>)
    requires |mem| * 8 < WORD_SIZE && ValidOps(ops, |mem|)
    ensures Run(w, mem, ops).numMatches == |Survivors(Run(w, mem, ops).live)|
  {
    if ops == [] {
      StartingCount(w, |mem|);
      AllSurvive(Start(w, mem).live);
    } else {
      var st := Run(w, mem, ops[..|ops| - 1]);
      SessionCount(w, mem, ops[..|ops| - 1]);
      match ops[|ops| - 1]
      case Narrow(s) => FewerSurvive(st.live, Filter(s, w, st.prev, st.live));
      case Delete(index) =>
        if Target(st, index) >= 0 {
          DropOne(st.live, Target(st, index));
        }
    }
  }

  /**
   * While the counter is right, index k below it always has a slot, the k-th survivor, and any other index has none.
   */
  lemma TargetExact(st: State, index: word)
    requires st.numMatches == |Survivors(st.live)|
    ensures Target(st, index) == if index < st.numMatches then Survivors(st.live)[index] else -1
  {
  }

  /** DELETE k turns the enumeration of survivors into the same one without its k-th entry. */
  lemma DeleteExact(st: State, w: Width, index: word)
    requires ValidState(st, w) && st.numMatches == |Survivors(st.live)| && index < st.numMatches
    ensures Survivors(Step(st, w, Delete(index)).live) == Survivors(st.live)[..index] + Survivors(st.live)[index + 1..]
    ensures Step(st, w, Delete(index)).numMatches == st.numMatches - 1
  {
    SurvivorsDrop(st.live, index);
  }

  /**
   * Re-initialising without starting a search, on a memory of `total` bytes, resets the counter but neither the match
   * bits nor the stored memory.
   */
  function Recount(st: State, w: Width, total: nat): State
    requires total * 8 < WORD_SIZE
  {
    StartingCount(w, total);
    st.(numMatches := StartingMatches(w, total))
  }

  /**
   * After that reset the counter is right exactly when the new memory has as many slots as are live; with a memory of
   * the same size that means that no slot had been dropped.
   */
  lemma RecountExact(st: State, w: Width, total: nat)
    requires total * 8 < WORD_SIZE && ValidState(st, w)
    ensures Recount(st, w, total).numMatches == SlotCount(w, total)
    ensures Recount(st, w, total).numMatches == |Survivors(st.live)| <==> SlotCount(w, total) == |Survivors(st.live)|
    ensures total == |st.prev| ==>
              (SlotCount(w, total) == |Survivors(st.live)| <==> forall j | 0 <= j < |st.live| :: st.live[j])
  {
    StartingCount(w, total);
    var all := seq(|st.live|, _ => true);
    AllSurvive(all);
    FewerSurvive(all, st.live);
    if forall j | 0 <= j < |st.live| :: st.live[j] {
      AllSurvive(st.live);
    }
  }

  /** A one-byte search with nothing dropped, then a memory of two bytes: counter 2, one live slot. */
  lemma LargerMapBreaksCount()
    ensures var st := Recount(Run(3, [0], []), 3, 2);
            st.numMatches == 2 && |Survivors(st.live)| == 1
  {
    var st := Run(3, [0], []);
    AllSurvive(st.live);
  }

  /** A one-byte session that shows the reset breaking the count: search for 1 in a memory of one 0, then reset. */
  lemma RecountBreaksCount()
    ensures var s := Search(Exact, 1, 0, 0, false, [0]);
            var st := Recount(Run(3, [0], [Narrow(s)]), 3, 1);
            st.numMatches == 1 && Survivors(st.live) == []
  {
    var s := Search(Exact, 1, 0, 0, false, [0]);
    var ops := [Narrow(s)];
    assert ops[..0] == [];
    LowByte(0);
    assert !Keeps(s, 3, [0], 0);
    var st := Run(3, [0], ops);
    assert st.live == [false];
    assert [false][..0] == [];
  }
}
