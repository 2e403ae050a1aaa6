/** What searches say about the values of the slots that survive them, in plain comparisons. */
module SearchLaws {
  import opened Words
  import opened Slots
  import opened SearchSession
  import opened PlaceValue

  /**
   * One search, kind by kind: which live slots stay live, from the slot's value in the memory searched and in the one
   * stored before. EQPLUS and EQMINUS compute in 32 bits.
   */
  lemma SearchVerdicts(st: State, w: Width, s: Search, j: nat)
    requires ValidState(st, w) && |s.memory| == |st.prev| && j < |st.live|
    ensures var curr, prev := SlotValue(s.memory, w, s.bigEndian, j), SlotValue(st.prev, w, s.bigEndian, j);
            var live := Step(st, w, Narrow(s)).live[j];
            && (s.kind == Exact ==> (live <==> st.live[j] && curr == s.exactValue))
            && (s.kind == Lt ==> (live <==> st.live[j] && curr < prev))
            && (s.kind == Lte ==> (live <==> st.live[j] && curr <= prev))
            && (s.kind == Gt ==> (live <==> st.live[j] && curr > prev))
            && (s.kind == Gte ==> (live <==> st.live[j] && curr >= prev))
            && (s.kind == Eq ==> (live <==> st.live[j] && curr == prev))
            && (s.kind == Neq ==> (live <==> st.live[j] && curr != prev))
            && (s.kind == EqPlus ==>
                  (live <==> st.live[j] && curr == (prev + s.eqplusValue) % 0x1_0000_0000))
            && (s.kind == EqMinus ==>
                  (live <==> st.live[j] && curr == (prev - s.eqminusValue) % 0x1_0000_0000))
  {
    hide SlotValue, SlotCount, Survivors;
  }

  /**
   * The counter after any operation, right or wrong before it: one less for every slot dropped, and never below zero.
   */
  lemma CounterMeaning(st: State, w: Width, op: Op)
    requires ValidState(st, w) && ValidOp(op, |st.prev|)
    ensures |Survivors(Step(st, w, op).live)| <= |Survivors(st.live)|
    ensures var dropped := |Survivors(st.live)| - |Survivors(Step(st, w, op).live)|;
            Step(st, w, op).numMatches == if dropped < st.numMatches then st.numMatches - dropped else 0
  {
    hide SlotValue, SlotCount, Survivors, Keeps;
    match op
    case Narrow(s) => FewerSurvive(st.live, Filter(s, w, st.prev, st.live));
    case Delete(index) =>
      if Target(st, index) >= 0 {
        DropOne(st.live, Target(st, index));
      }
  }

  /**
   * Which slot an index acts on, whatever the counter: the survivor with that index when there is one and the counter
   * is zero, where the guard wraps, or above the index; otherwise none.
   */
  lemma TargetMeaning(st: State, index: word)
    ensures Target(st, index)
            == if index < |Survivors(st.live)| && (st.numMatches == 0 || index < st.numMatches)
               then Survivors(st.live)[index] else -1
  {
    hide Survivors;
  }

  // ---- sessions of one kind of search ----

  /** Searches of one kind, all read in one byte order. */
  predicate AllSearches(ops: seq<Op>, kind: SearchType, bigEndian: bool) {
    forall i | 0 <= i < |ops| :: ops[i].Narrow? && ops[i].search.kind == kind && ops[i].search.bigEndian == bigEndian
  }

  /** The memory after `n` searches. */
  function MemoryAt(mem: seq<byte>, ops: seq<Op>, n: nat): seq<byte>
    requires n <= |ops| && forall i | 0 <= i < |ops| :: ops[i].Narrow?
  {
    if n == 0 then mem else ops[n - 1].search.memory
  }

  /** The value of slot `j` after `n` searches. */
  function ValueAfter(w: Width, mem: seq<byte>, ops: seq<Op>, bigEndian: bool, n: nat, j: nat): word
    requires ValidOps(ops, |mem|) && n <= |ops| && j < SlotCount(w, |mem|)
    requires forall i | 0 <= i < |ops| :: ops[i].Narrow?
  {
    assert n > 0 ==> ValidOp(ops[n - 1], |mem|);
    SlotValue(MemoryAt(mem, ops, n), w, bigEndian, j)
  }

  lemma {:induction false} PrevAfter(w: Width, mem: seq<byte>, ops: seq<Op>, n: nat)
    requires |mem| * 8 < WORD_SIZE && ValidOps(ops, |mem|) && n <= |ops|
    requires forall i | 0 <= i < |ops| :: ops[i].Narrow?
    ensures Run(w, mem, ops[..n]).prev == MemoryAt(mem, ops, n)
  {
    if n > 0 {
      assert ops[..n][..n - 1] == ops[..n - 1];
    }
  }

  /** One search more: its state, and the values it compares. */
  lemma OneSearchMore(w: Width, mem: seq<byte>, ops: seq<Op>, bigEndian: bool, n: nat, j: nat)
    requires |mem| * 8 < WORD_SIZE && ValidOps(ops, |mem|) && 0 < n <= |ops| && j < SlotCount(w, |mem|)
    requires forall i | 0 <= i < |ops| :: ops[i].Narrow?
    ensures var st, s := Run(w, mem, ops[..n - 1]), ops[n - 1].search;
            && |s.memory| == |st.prev| == |mem| && Run(w, mem, ops[..n]) == Step(st, w, Narrow(s))
            && ValueAfter(w, mem, ops, bigEndian, n, j) == SlotValue(s.memory, w, bigEndian, j)
            && ValueAfter(w, mem, ops, bigEndian, n - 1, j) == SlotValue(st.prev, w, bigEndian, j)
  {
    hide Step, SlotValue, SlotCount;
    PrevAfter(w, mem, ops, n - 1);
    assert ops[..n][..n - 1] == ops[..n - 1] && ops[..n][n - 1] == Narrow(ops[n - 1].search);
    assert ValidOp(ops[n - 1], |mem|);
  }

  lemma AllLiveAtFirst(w: Width, mem: seq<byte>, ops: seq<Op>, j: nat)
    requires |mem| * 8 < WORD_SIZE && j < SlotCount(w, |mem|)
    ensures Run(w, mem, ops[..0]).live[j]
  {
    assert ops[..0] == [];
  }

  /**
   * After `n` LT searches the live slots are those whose value has fallen every time, so by at least `n` in all.
   */
  lemma {:induction false} LtFalls(w: Width, mem: seq<byte>, ops: seq<Op>, bigEndian: bool, n: nat, j: nat)
    requires |mem| * 8 < WORD_SIZE && ValidOps(ops, |mem|) && n <= |ops| && j < SlotCount(w, |mem|)
    requires AllSearches(ops, Lt, bigEndian)
    ensures Run(w, mem, ops[..n]).live[j]
            <==> forall i: nat | i < n ::
                   ValueAfter(w, mem, ops, bigEndian, i + 1, j) < ValueAfter(w, mem, ops, bigEndian, i, j)
    ensures Run(w, mem, ops[..n]).live[j] ==>
              ValueAfter(w, mem, ops, bigEndian, n, j) + n <= ValueAfter(w, mem, ops, bigEndian, 0, j)
  {
    hide ValueAfter, SlotCount, SlotValue, Run, Step;
    if n == 0 {
      AllLiveAtFirst(w, mem, ops, j);
    } else {
      LtFalls(w, mem, ops, bigEndian, n - 1, j);
      OneSearchMore(w, mem, ops, bigEndian, n, j);
      SearchVerdicts(Run(w, mem, ops[..n - 1]), w, ops[n - 1].search, j);
    }
  }

  /** After `n` GT searches: risen every time, so by at least `n` in all. */
  lemma {:induction false} GtRises(w: Width, mem: seq<byte>, ops: seq<Op>, bigEndian: bool, n: nat, j: nat)
    requires |mem| * 8 < WORD_SIZE && ValidOps(ops, |mem|) && n <= |ops| && j < SlotCount(w, |mem|)
    requires AllSearches(ops, Gt, bigEndian)
    ensures Run(w, mem, ops[..n]).live[j]
            <==> forall i: nat | i < n ::
                   ValueAfter(w, mem, ops, bigEndian, i + 1, j) > ValueAfter(w, mem, ops, bigEndian, i, j)
    ensures Run(w, mem, ops[..n]).live[j] ==>
              ValueAfter(w, mem, ops, bigEndian, n, j) >= ValueAfter(w, mem, ops, bigEndian, 0, j) + n
  {
    hide ValueAfter, SlotCount, SlotValue, Run, Step;
    if n == 0 {
      AllLiveAtFirst(w, mem, ops, j);
    } else {
      GtRises(w, mem, ops, bigEndian, n - 1, j);
      OneSearchMore(w, mem, ops, bigEndian, n, j);
      SearchVerdicts(Run(w, mem, ops[..n - 1]), w, ops[n - 1].search, j);
    }
  }

  lemma SumThenMod(v: int, total: int, d: int, k: int)
    requires v == total % 0x1_0000_0000 && k == total + d
    ensures (v + d) % 0x1_0000_0000 == k % 0x1_0000_0000
  {
  }

  lemma TimesNext(n: nat, d: int)
    requires n > 0
    ensures n * d == (n - 1) * d + d
  {
  }

  /** The values are the start and `d` more at every search, in 32 bits. */
  ghost predicate StepsBy(w: Width, mem: seq<byte>, ops: seq<Op>, bigEndian: bool, n: nat, j: nat, d: int)
    requires ValidOps(ops, |mem|) && n <= |ops| && j < SlotCount(w, |mem|)
    requires forall i | 0 <= i < |ops| :: ops[i].Narrow?
  {
    forall i: nat | i <= n ::
      ValueAfter(w, mem, ops, bigEndian, i, j)
      == (ValueAfter(w, mem, ops, bigEndian, 0, j) + i * d) % 0x1_0000_0000
  }

  lemma OneStepMore(w: Width, mem: seq<byte>, ops: seq<Op>, bigEndian: bool, n: nat, j: nat, d: int)
    requires ValidOps(ops, |mem|) && 0 < n <= |ops| && j < SlotCount(w, |mem|)
    requires forall i | 0 <= i < |ops| :: ops[i].Narrow?
    ensures StepsBy(w, mem, ops, bigEndian, n, j, d)
            <==> StepsBy(w, mem, ops, bigEndian, n - 1, j, d)
                 && ValueAfter(w, mem, ops, bigEndian, n, j)
                    == (ValueAfter(w, mem, ops, bigEndian, n - 1, j) + d) % 0x1_0000_0000
  {
    hide ValueAfter, SlotCount;
    var v, start := ValueAfter(w, mem, ops, bigEndian, n - 1, j), ValueAfter(w, mem, ops, bigEndian, 0, j);
    TimesNext(n, d);
    if v == (start + (n - 1) * d) % 0x1_0000_0000 {
      SumThenMod(v, start + (n - 1) * d, d, start + n * d);
    }
  }

  /** After `n` EQPLUS searches by `d`: exactly the slots that grew by `d` every time, in 32 bits. */
  lemma {:induction false} EqPlusAdds(w: Width, mem: seq<byte>, ops: seq<Op>, bigEndian: bool, n: nat, j: nat, d: word)
    requires |mem| * 8 < WORD_SIZE && ValidOps(ops, |mem|) && n <= |ops| && j < SlotCount(w, |mem|)
    requires AllSearches(ops, EqPlus, bigEndian) && forall i | 0 <= i < |ops| :: ops[i].search.eqplusValue == d
    ensures Run(w, mem, ops[..n]).live[j] <==> StepsBy(w, mem, ops, bigEndian, n, j, d)
  {
    if n == 0 {
      hide ValueAfter, SlotCount, SlotValue, Run, Step;
      AllLiveAtFirst(w, mem, ops, j);
      assert ValueAfter(w, mem, ops, bigEndian, 0, j) % 0x1_0000_0000 == ValueAfter(w, mem, ops, bigEndian, 0, j);
    } else {
      hide ValueAfter, SlotCount, SlotValue, Run, Step, StepsBy;
      EqPlusAdds(w, mem, ops, bigEndian, n - 1, j, d);
      OneSearchMore(w, mem, ops, bigEndian, n, j);
      SearchVerdicts(Run(w, mem, ops[..n - 1]), w, ops[n - 1].search, j);
      OneStepMore(w, mem, ops, bigEndian, n, j, d);
    }
  }

  /** After `n` EQMINUS searches by `d`: exactly the slots that fell by `d` every time, in 32 bits. */
  lemma {:induction false} EqMinusSubtracts(w: Width, mem: seq<byte>, ops: seq<Op>, bigEndian: bool, n: nat, j: nat,
                                            d: word)
    requires |mem| * 8 < WORD_SIZE && ValidOps(ops, |mem|) && n <= |ops| && j < SlotCount(w, |mem|)
    requires AllSearches(ops, EqMinus, bigEndian) && forall i | 0 <= i < |ops| :: ops[i].search.eqminusValue == d
    ensures Run(w, mem, ops[..n]).live[j] <==> StepsBy(w, mem, ops, bigEndian, n, j, -(d as int))
  {
    if n == 0 {
      hide ValueAfter, SlotCount, SlotValue, Run, Step;
      AllLiveAtFirst(w, mem, ops, j);
      assert ValueAfter(w, mem, ops, bigEndian, 0, j) % 0x1_0000_0000 == ValueAfter(w, mem, ops, bigEndian, 0, j);
    } else {
      hide ValueAfter, SlotCount, SlotValue, Run, Step, StepsBy;
      EqMinusSubtracts(w, mem, ops, bigEndian, n - 1, j, d);
      OneSearchMore(w, mem, ops, bigEndian, n, j);
      SearchVerdicts(Run(w, mem, ops[..n - 1]), w, ops[n - 1].search, j);
      OneStepMore(w, mem, ops, bigEndian, n, j, -(d as int));
    }
  }

  lemma SlotBelowBase(mem: seq<byte>, w: Width, bigEndian: bool, j: nat)
    requires j < SlotCount(w, |mem|)
    ensures SlotValue(mem, w, bigEndian, j) < SlotBase(w)
  {
    hide And, SlotCount, SlotAddr, SlotPart;
    SlotInRange(w, j, |mem|);
  }

  lemma {:induction false} NoneLive(live: seq<bool>)
    requires forall j | 0 <= j < |live| :: !live[j]
    ensures Survivors(live) == []
  {
    if live != [] {
      NoneLive(live[..|live| - 1]);
    }
  }

  /** A slot of 2^w bits has 2^(2^w) values, so as many LT searches leave no match. */
  lemma LtRunsOut(w: Width, mem: seq<byte>, ops: seq<Op>, bigEndian: bool)
    requires |mem| * 8 < WORD_SIZE && ValidOps(ops, |mem|) && AllSearches(ops, Lt, bigEndian)
    requires |ops| >= SlotBase(w)
    ensures Run(w, mem, ops).numMatches == 0 && forall j: nat | j < SlotCount(w, |mem|) :: !Run(w, mem, ops).live[j]
  {
    hide SlotCount, Run, Survivors, SlotBase;
    assert ops[..|ops|] == ops;
    forall j: nat | j < SlotCount(w, |mem|)
      ensures !Run(w, mem, ops).live[j]
    {
      LtFalls(w, mem, ops, bigEndian, |ops|, j);
      SlotBelowBase(mem, w, bigEndian, j);
    }
    SessionCount(w, mem, ops);
    NoneLive(Run(w, mem, ops).live);
  }
}
