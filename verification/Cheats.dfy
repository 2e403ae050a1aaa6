/** Cheat entries and what applying a list of them means. */
module Cheats {
  import opened Words
  import opened Slots
  import opened SearchSession
  import opened Wrappers

  /** `struct item_cheat` without the running rumble state. */
  datatype Cheat = Cheat(
    idx: word, handler: word, memorySearchSize: word, cheatType: word, value: word, address: word, addressMask: word,
    rumbleType: word, rumbleValue: word, rumblePort: word,
    rumblePrimaryStrength: word, rumblePrimaryDuration: word,
    rumbleSecondaryStrength: word, rumbleSecondaryDuration: word,
    repeatCount: word, repeatAddToValue: word, repeatAddToAddress: word,
    state: bool, bigEndian: bool, desc: Option<string>, code: Option<string>)

  const HANDLER_EMU: word := 0
  const HANDLER_RETRO: word := 1

  const SET_TO_VALUE: word := 1
  const INCREASE_VALUE: word := 2
  const DECREASE_VALUE: word := 3
  const RUN_NEXT_IF_EQ: word := 4
  const RUN_NEXT_IF_NEQ: word := 5
  const RUN_NEXT_IF_LT: word := 6
  const RUN_NEXT_IF_GT: word := 7

  /** All fields zero, as `calloc` and `memset` leave them. */
  const ZERO_CHEAT := Cheat(0, 0, 0, 0, 0, 0, 0, 0, 0, 0, 0, 0, 0, 0, 0, 0, 0, false, false, None, None)

  /** An entry `cheat_manager_realloc` adds at index `idx`. */
  function FreshCheat(idx: word, handler: word): Cheat {
    ZERO_CHEAT.(idx := idx, handler := handler, cheatType := SET_TO_VALUE, memorySearchSize := 3, repeatCount := 1,
        repeatAddToAddress := 1)
  }

  /** The entry `cheat_manager_add_new_code` leaves at index `idx`. */
  function NewCode(idx: word, w: Width, address: word, addressMask: word, bigEndian: bool, value: word): Cheat {
    FreshCheat(idx, HANDLER_RETRO).(address := address, addressMask := addressMask, memorySearchSize := w,
        value := value, bigEndian := bigEndian)
  }

  // ---- applying one cheat ----

  /** The cheats `cheat_manager_apply_retro_cheats` does not pass over. */
  predicate IsActive(c: Cheat) {
    c.handler == HANDLER_RETRO && c.state
  }

  predicate SetsValue(c: Cheat) {
    c.cheatType == SET_TO_VALUE || c.cheatType == INCREASE_VALUE || c.cheatType == DECREASE_VALUE
  }

  function ValueToSet(c: Cheat, curr: word): word {
    if c.cheatType == SET_TO_VALUE then c.value
    else if c.cheatType == INCREASE_VALUE then Wrap(curr + c.value)
    else Wrap(curr - c.value)
  }

  /** A RUN_NEXT_IF cheat whose condition fails on the value read. */
  predicate SkipsNext(c: Cheat, curr: word) {
    || (c.cheatType == RUN_NEXT_IF_EQ && curr != c.value)
    || (c.cheatType == RUN_NEXT_IF_NEQ && curr == c.value)
    || (c.cheatType == RUN_NEXT_IF_LT && curr <= c.value)
    || (c.cheatType == RUN_NEXT_IF_GT && c.value <= curr)
  }

  /**
   * The cheat addresses an aligned item below `total`, its repeat loop can end, and repeats are used only with whole
   * bytes.
   */
  predicate Fits(c: Cheat, total: nat) {
    && c.memorySearchSize <= 5
    && Aligned(c.address, c.memorySearchSize)
    && Aligned(total, c.memorySearchSize)
    && c.address + BytesPerItem(c.memorySearchSize) <= total
    && (c.memorySearchSize < 3 ==> c.repeatCount <= 1)
    && c.repeatCount < WORD_SIZE - 1
  }

  /** The bits of `v` where `mask` has ones, the bits of `was` elsewhere. */
  function MergeByte(was: byte, mask: word, v: word): byte {
    var m: byte := mask % 0x100;
    OnesValues();
    OrBound(And(was, NotByte(m)), And(v, m), 8);
    Or(And(was, NotByte(m)), And(v, m))
  }

  lemma MergeByteBits(was: byte, mask: word, v: word, t: nat)
    requires t < 8
    ensures BitSet(MergeByte(was, mask, v), t) == if BitSet(mask, t) then BitSet(v, t) else BitSet(was, t)
  {
    var m: byte := mask % 0x100;
    OrBits(And(was, NotByte(m)), And(v, m), t);
    AndBits(was, NotByte(m), t);
    AndBits(v, m, t);
    NotByteBits(m, t);
    LowByte(mask);
    OnesValues();
    AndBits(mask, 0xFF, t);
    OnesBits(8, t);
  }

  /** One write of value `v` at address `idx`. */
  function WriteOnce(mem: seq<byte>, c: Cheat, idx: nat, v: word): (r: seq<byte>)
    requires c.memorySearchSize <= 5 && idx + BytesPerItem(c.memorySearchSize) <= |mem|
    ensures |r| == |mem|
  {
    if c.memorySearchSize < 3 then Store(mem, idx, [MergeByte(mem[idx], c.addressMask, v)])
    else Store(mem, idx, ItemBytes(v, c.memorySearchSize, c.bigEndian))
  }

  /** The value of the next iteration: `value_to_set += add; value_to_set %= mask`. */
  function NextValue(c: Cheat, v: word): word
    requires 3 <= c.memorySearchSize <= 5
  {
    Wrap(v + c.repeatAddToValue) % ItemMask(c.memorySearchSize)
  }

  /** The address of the next iteration. */
  function NextAddress(c: Cheat, idx: nat, total: nat): nat
    requires 3 <= c.memorySearchSize <= 5 && 0 < total
  {
    Wrap(idx + Wrap(c.repeatAddToAddress * BytesPerItem(c.memorySearchSize))) % total
  }

  lemma MultipleAligned(x: nat, w: Width)
    ensures Aligned(x * BytesPerItem(w), w)
  {
  }

  lemma ModMultiple(a: nat, total: nat, m: nat)
    requires m > 0 && total > 0
    ensures total % m == 0 && a % m == 0 ==> a % total % m == 0
  {
    if total % m == 0 && a % m == 0 {
      var i, k, q := a / m, total / m, a / total;
      assert total * q == m * (k * q);
      assert a % total == m * (i - k * q);
      ModUnique(a % total, m, i - k * q, 0);
    }
  }

  lemma WrapAligned(a: nat, w: Width)
    requires Aligned(a, w)
    ensures Aligned(Wrap(a), w)
  {
    ModMultiple(a, WORD_SIZE, 4);
    ModMultiple(a, WORD_SIZE, 2);
  }

  lemma ModAligned(a: nat, total: nat, w: Width)
    requires Aligned(a, w) && Aligned(total, w) && total > 0
    ensures Aligned(a % total, w)
  {
    ModMultiple(a, total, 4);
    ModMultiple(a, total, 2);
  }

  /** An iteration's address is again an aligned item below `total`, whatever wraps. */
  lemma NextAddressFits(c: Cheat, idx: nat, total: nat)
    requires 3 <= c.memorySearchSize <= 5 && total < WORD_SIZE && idx + BytesPerItem(c.memorySearchSize) <= total
    requires Aligned(idx, c.memorySearchSize) && Aligned(total, c.memorySearchSize)
    ensures Aligned(NextAddress(c, idx, total), c.memorySearchSize)
    ensures NextAddress(c, idx, total) + BytesPerItem(c.memorySearchSize) <= total
  {
    hide Aligned, Wrap;
    var w: Width := c.memorySearchSize;
    var step := c.repeatAddToAddress * BytesPerItem(w);
    MultipleAligned(c.repeatAddToAddress, w);
    WrapAligned(step, w);
    AlignedSum(idx, Wrap(step), w);
    WrapAligned(idx + Wrap(step), w);
    ModAligned(Wrap(idx + Wrap(step)), total, w);
    ItemBefore(NextAddress(c, idx, total), total, w);
  }

  // ---- repeats ----

  /** Where iteration `k` writes. */
  function AddressAt(c: Cheat, total: nat, k: nat): (a: nat)
    requires Fits(c, total) && total < WORD_SIZE && (c.memorySearchSize < 3 ==> k == 0)
    ensures Aligned(a, c.memorySearchSize) && a + BytesPerItem(c.memorySearchSize) <= total
  {
    if k == 0 then c.address
    else
      NextAddressFits(c, AddressAt(c, total, k - 1), total);
      NextAddress(c, AddressAt(c, total, k - 1), total)
  }

  /** What iteration `k` writes, starting from `v`. */
  function ValueAt(c: Cheat, v: word, k: nat): word
    requires c.memorySearchSize <= 5 && (c.memorySearchSize < 3 ==> k == 0)
  {
    if k == 0 then v else NextValue(c, ValueAt(c, v, k - 1))
  }

  /** Memory after `n` iterations. */
  function Repeat(mem: seq<byte>, c: Cheat, v: word, n: nat): (r: seq<byte>)
    requires Fits(c, |mem|) && |mem| < WORD_SIZE && (c.memorySearchSize < 3 ==> n <= 1)
    ensures |r| == |mem|
  {
    if n == 0 then mem
    else WriteOnce(Repeat(mem, c, v, n - 1), c, AddressAt(c, |mem|, n - 1), ValueAt(c, v, n - 1))
  }

  /** The last iteration below `n` whose write covers byte `a`, or -1. */
  function LastWriter(c: Cheat, total: nat, n: nat, a: nat): (k: int)
    requires 3 <= c.memorySearchSize && Fits(c, total) && total < WORD_SIZE
    ensures -1 <= k < n
    ensures k >= 0 ==> AddressAt(c, total, k) <= a < AddressAt(c, total, k) + BytesPerItem(c.memorySearchSize)
    ensures forall i: nat | k < i < n ::
              !(AddressAt(c, total, i) <= a < AddressAt(c, total, i) + BytesPerItem(c.memorySearchSize))
  {
    if n == 0 then -1
    else if AddressAt(c, total, n - 1) <= a < AddressAt(c, total, n - 1) + BytesPerItem(c.memorySearchSize) then n - 1
    else LastWriter(c, total, n - 1, a)
  }

  /** After the repeats a byte holds what the last write over it stored, and a byte no write covers is unchanged. */
  lemma {:induction false} RepeatBytes(mem: seq<byte>, c: Cheat, v: word, n: nat, a: nat)
    requires 3 <= c.memorySearchSize && Fits(c, |mem|) && |mem| < WORD_SIZE && a < |mem|
    ensures var k := LastWriter(c, |mem|, n, a);
            Repeat(mem, c, v, n)[a] == if k < 0 then mem[a]
                                       else ItemBytes(ValueAt(c, v, k), c.memorySearchSize,
                                           c.bigEndian)[a - AddressAt(c, |mem|, k)]
  {
    hide ItemBytes, NextValue, NextAddress;
    if n > 0 {
      RepeatBytes(mem, c, v, n - 1, a);
    }
  }

  /** The bytes between one iteration's address and the next one's. */
  function Stride(c: Cheat): nat
    requires c.memorySearchSize <= 5
  {
    c.repeatAddToAddress * BytesPerItem(c.memorySearchSize)
  }

  lemma NextAddressPlain(c: Cheat, idx: nat, total: nat)
    requires 3 <= c.memorySearchSize <= 5 && idx < total && total + Stride(c) <= WORD_SIZE
    ensures NextAddress(c, idx, total) == (idx + Stride(c)) % total
  {
    assert Wrap(Stride(c)) == Stride(c);
    assert Wrap(idx + Stride(c)) == idx + Stride(c);
  }

  /** `k` steps of size `step` from `start`, modulo `m`. */
  function Reached(start: nat, k: nat, step: nat, m: nat): nat
    requires m > 0
  {
    (start + k * step) % m
  }

  lemma MulStep(k: int, step: int)
    ensures (k - 1) * step + step == k * step
  {
  }

  lemma ModPlus(x: int, y: int, m: int)
    requires m > 0
    ensures (x % m + y) % m == (x + y) % m
  {
    var q, q' := x / m, (x % m + y) / m;
    assert x + y == m * (q + q') + (x % m + y) % m;
    ModUnique(x + y, m, q + q', (x % m + y) % m);
  }

  lemma ModOfSum(x: int, y: int, z: int, m: int)
    requires m > 0 && x + y == z
    ensures z % m == (x % m + y) % m
  {
    ModPlus(x, y, m);
  }

  lemma ReachedStep(start: nat, k: nat, step: nat, m: nat)
    requires m > 0
    ensures Reached(start, 0, step, m) == start % m
    ensures k > 0 ==> Reached(start, k, step, m) == (Reached(start, k - 1, step, m) + step) % m
  {
    if k > 0 {
      MulStep(k, step);
      ModOfSum(start + (k - 1) * step, step, start + k * step, m);
    }
  }

  /** Barring 32-bit wrap, iteration `k` writes `k` strides further, modulo the memory size. */
  lemma {:induction false} AddressClosedForm(c: Cheat, total: nat, k: nat)
    requires 3 <= c.memorySearchSize && Fits(c, total) && total < WORD_SIZE
    requires total + c.repeatAddToAddress * BytesPerItem(c.memorySearchSize) <= WORD_SIZE
    ensures AddressAt(c, total, k)
            == (c.address + k * (c.repeatAddToAddress * BytesPerItem(c.memorySearchSize))) % total
  {
    hide NextAddress, Aligned;
    ReachedStep(c.address, k, Stride(c), total);
    if k == 0 {
      ModUnique(c.address, total, 0, c.address);
    } else {
      AddressClosedForm(c, total, k - 1);
      NextAddressPlain(c, AddressAt(c, total, k - 1), total);
    }
  }

  /** One value step is addition modulo the width mask exactly when the 32-bit addition does not wrap. */
  lemma NextValueExact(c: Cheat, v: word)
    requires 3 <= c.memorySearchSize <= 5
    ensures NextValue(c, v) == (v + c.repeatAddToValue) % ItemMask(c.memorySearchSize)
            <==> v + c.repeatAddToValue < WORD_SIZE
  {
    var m := ItemMask(c.memorySearchSize);
    var x: int := v + c.repeatAddToValue;
    assert WORD_SIZE % 0xFF == 1 && WORD_SIZE % 0xFFFF == 1 && WORD_SIZE % 0xFFFF_FFFF == 1;
    if x >= WORD_SIZE {
      var y := x - WORD_SIZE;
      assert Wrap(x) == y;
      if y % m == x % m {
        ModPlus(WORD_SIZE, y, m);
        ModPlus(y, 1, m);
        var r := y % m;
        assert (r + 1) % m == r;
        if r + 1 < m { ModUnique(r + 1, m, 0, r + 1); } else { ModUnique(r + 1, m, 1, 0); }
      }
    }
  }

  lemma ReachedBelow(start: nat, k: nat, step: nat, m: nat)
    requires m > 0
    ensures Reached(start, k, step, m) < m
  {
  }

  /**
   * While no addition can wrap, iteration `k >= 1` writes the start value plus `k` additions, modulo the width mask.
   */
  lemma {:induction false} ValueClosedForm(c: Cheat, v: word, k: nat)
    requires 3 <= c.memorySearchSize <= 5 && k >= 1
    requires v + c.repeatAddToValue < WORD_SIZE && ItemMask(c.memorySearchSize) - 1 + c.repeatAddToValue < WORD_SIZE
    ensures ValueAt(c, v, k) == (v + k * c.repeatAddToValue) % ItemMask(c.memorySearchSize)
  {
    hide NextValue;
    var m := ItemMask(c.memorySearchSize);
    ReachedStep(v, k, c.repeatAddToValue, m);
    if k > 1 {
      ValueClosedForm(c, v, k - 1);
      NextValueExact(c, ValueAt(c, v, k - 1));
      ReachedBelow(v, k - 1, c.repeatAddToValue, m);
    } else {
      ReachedStep(v, 1, c.repeatAddToValue, m);
      ModPlus(v, c.repeatAddToValue, m);
      NextValueExact(c, ValueAt(c, v, 0));
    }
  }

  // ---- applying a list of cheats ----

  function Apply(mem: seq<byte>, c: Cheat, bigEndian: bool): (r: seq<byte>)
    requires Fits(c, |mem|) && |mem| < WORD_SIZE
    ensures |r| == |mem|
  {
    if SetsValue(c) then
      Repeat(mem, c, ValueToSet(c, ItemValue(mem, c.address, c.memorySearchSize, bigEndian)), c.repeatCount)
    else mem
  }

  lemma ItemBelowMask(mem: seq<byte>, a: nat, w: Width, bigEndian: bool)
    requires w >= 3 && a + BytesPerItem(w) <= |mem|
    ensures ItemValue(mem, a, w, bigEndian) <= ItemMask(w)
  {
  }

  /** The cheats that take part, in order. */
  function ActiveOnly(cs: seq<Cheat>): (r: seq<Cheat>)
    ensures forall c | c in r :: c in cs && IsActive(c)
  {
    if cs == [] then []
    else (if IsActive(cs[0]) then [cs[0]] else []) + ActiveOnly(cs[1..])
  }

  /**
   * Meaning of a list of active cheats: each one acts on the memory the earlier ones left, and a failed condition
   * drops the one after it.
   */
  function RunCheats(mem: seq<byte>, cs: seq<Cheat>, bigEndian: bool): (r: seq<byte>)
    requires |mem| < WORD_SIZE && forall c | c in cs :: Fits(c, |mem|)
    ensures |r| == |mem|
    decreases |cs|
  {
    if cs == [] then mem
    else
      var c := cs[0];
      assert c in cs && Fits(c, |mem|);
      var skip := SkipsNext(c, ItemValue(mem, c.address, c.memorySearchSize, bigEndian));
      RunCheats(Apply(mem, c, bigEndian), if skip && |cs| > 1 then cs[2..] else cs[1..], bigEndian)
  }

  lemma RunNone(mem: seq<byte>, bigEndian: bool)
    requires |mem| < WORD_SIZE
    ensures RunCheats(mem, [], bigEndian) == mem
  {
  }

  lemma ActiveHead(c: Cheat, rest: seq<Cheat>)
    ensures ActiveOnly([]) == []
    ensures ActiveOnly([c] + rest) == (if IsActive(c) then [c] else []) + ActiveOnly(rest)
  {
    assert ([c] + rest)[1..] == rest;
  }

  lemma {:induction false} ActiveAppend(a: seq<Cheat>, b: seq<Cheat>)
    ensures ActiveOnly(a + b) == ActiveOnly(a) + ActiveOnly(b)
  {
    hide ActiveOnly, IsActive;
    if a == [] {
      ActiveHead(ZERO_CHEAT, []);
      assert a + b == b;
    } else {
      ActiveAppend(a[1..], b);
      ActiveHead(a[0], a[1..]);
      ActiveHead(a[0], a[1..] + b);
      assert a == [a[0]] + a[1..];
      assert a + b == [a[0]] + (a[1..] + b);
    }
  }

  lemma {:induction false} AllActive(cs: seq<Cheat>)
    ensures (forall c | c in cs :: IsActive(c)) ==> ActiveOnly(cs) == cs
    ensures (forall c | c in cs :: !IsActive(c)) ==> ActiveOnly(cs) == []
  {
    if cs != [] {
      AllActive(cs[1..]);
    }
  }

  /**
   * A cheat that is off, or belongs to the core, takes no part: it changes nothing and does not use up a failed
   * condition.
   */
  lemma InactiveIgnored(before: seq<Cheat>, c: Cheat, after: seq<Cheat>)
    requires !IsActive(c)
    ensures ActiveOnly(before + [c] + after) == ActiveOnly(before + after)
  {
    hide ActiveOnly;
    assert before + [c] + after == before + ([c] + after);
    ActiveAppend(before, [c] + after);
    ActiveAppend(before, after);
    ActiveHead(c, after);
  }

  /**
   * A condition never changes memory; when it fails, exactly the next active cheat is dropped, even one that is a
   * condition itself.
   */
  lemma ConditionDropsNext(mem: seq<byte>, c: Cheat, next: Cheat, rest: seq<Cheat>, bigEndian: bool)
    requires |mem| < WORD_SIZE && RUN_NEXT_IF_EQ <= c.cheatType <= RUN_NEXT_IF_GT
    requires Fits(c, |mem|) && Fits(next, |mem|) && forall d | d in rest :: Fits(d, |mem|)
    ensures forall d | d in [c, next] + rest :: Fits(d, |mem|)
    ensures RunCheats(mem, [c, next] + rest, bigEndian)
            == if SkipsNext(c, ItemValue(mem, c.address, c.memorySearchSize, bigEndian)) then RunCheats(mem, rest,
                bigEndian)
               else RunCheats(mem, [next] + rest, bigEndian)
  {
    hide Fits, ItemValue, SkipsNext;
    var cs := [c, next] + rest;
    assert cs[1..] == [next] + rest && cs[2..] == rest;
    assert Apply(mem, c, bigEndian) == mem;
  }

  // ---- freezing matches ----

  /** The address mask VIEW reports for slot `j`. */
  function MatchMask(w: Width, j: nat): byte {
    if w < 3 then GroupMask(w, SlotPart(w, j)) else 0xFF
  }

  /** The cheat that COPY or `cheat_manager_add_matches` makes of slot `j`, as list entry `idx`. */
  function MatchCode(idx: word, mem: seq<byte>, w: Width, bigEndian: bool, j: nat): Cheat
    requires j < SlotCount(w, |mem|) && |mem| < WORD_SIZE
  {
    SlotInRange(w, j, |mem|);
    NewCode(idx, w, SlotAddr(w, j), MatchMask(w, j), bigEndian, ItemValue(mem, SlotAddr(w, j), w, bigEndian))
  }

  /** The cheats made of `slots`, numbered from `start`. */
  function MatchCodes(start: nat, mem: seq<byte>, w: Width, bigEndian: bool, slots: seq<nat>): (r: seq<Cheat>)
    requires |mem| < WORD_SIZE && forall j | j in slots :: j < SlotCount(w, |mem|)
    ensures |r| == |slots|
  {
    seq(|slots|, k requires 0 <= k < |slots| => assert slots[k] in slots; MatchCode(Wrap(start + k), mem, w,
        bigEndian, slots[k]))
  }

  function Enable(c: Cheat): Cheat {
    c.(state := true)
  }

  function EnableAll(cs: seq<Cheat>): seq<Cheat> {
    seq(|cs|, k requires 0 <= k < |cs| => Enable(cs[k]))
  }
}
