/** Order of backup names: when alphabetical order of the timestamps in them is time order. */
module StampOrder {
  import opened Words
  import opened Numerals
  import opened BackupNames

  // ---- digits ----

  /** Only the characters 0 to 9. */
  predicate AllDecimal(s: string) {
    forall i | 0 <= i < |s| :: '0' <= s[i] <= '9'
  }

  lemma LastDigit(s: string)
    requires s != [] && AllDecimal(s)
    ensures Value(s, 10) == Value(s[..|s| - 1], 10) * 10 + (s[|s| - 1] as int - '0' as int)
    ensures AllDecimal(s[..|s| - 1])
  {
  }

  lemma {:induction false} ValueBelow(t: string)
    requires AllDecimal(t)
    ensures Value(t, 10) < Pow(10, |t|) && AllDigits(t, 10)
  {
    hide Value;
    if t == [] {
      ValueOfNothing(10);
    } else {
      LastDigit(t);
      ValueBelow(t[..|t| - 1]);
    }
  }

  lemma SameLastDigit(x: nat, y: nat, c: char, d: char)
    requires '0' <= c <= '9' && '0' <= d <= '9'
    requires x * 10 + (c as int - '0' as int) == y * 10 + (d as int - '0' as int)
    ensures x == y && c == d
  {
  }

  /** Digit strings of one length that denote the same number are the same. */
  lemma {:induction false} SameDigits(a: string, b: string)
    requires |a| == |b| && AllDecimal(a) && AllDecimal(b) && Value(a, 10) == Value(b, 10)
    ensures a == b
  {
    hide Value;
    if a != [] {
      var n := |a| - 1;
      LastDigit(a);
      LastDigit(b);
      SameLastDigit(Value(a[..n], 10), Value(b[..n], 10), a[n], b[n]);
      SameDigits(a[..n], b[..n]);
      assert a == a[..n] + [a[n]] && b == b[..n] + [b[n]];
    }
  }

  lemma FirstCharOrder(c: char, d: char, r: string, s: string)
    requires Fold(c) < Fold(d)
    ensures StrCaseCmp([c] + r, [d] + s) < 0
  {
  }

  /** Digit strings of one length compare as the numbers they denote, whatever follows. */
  lemma {:induction false} DigitsOrder(a: string, b: string, r: string, s: string)
    requires |a| == |b| && AllDecimal(a) && AllDecimal(b)
    ensures Value(a, 10) < Value(b, 10) ==> StrCaseCmp(a + r, b + s) < 0
    ensures Value(a, 10) == Value(b, 10) ==> StrCaseCmp(a + r, b + s) == StrCaseCmp(r, s)
  {
    hide StrCaseCmp, Value;
    assert a == [] ==> a == b;
    if Value(a, 10) == Value(b, 10) {
      SameDigits(a, b);
      CommonPrefix(a, r, s);
    } else if a != [] {
      var n := |a| - 1;
      LastDigit(a);
      LastDigit(b);
      DigitsOrder(a[..n], b[..n], [a[n]] + r, [b[n]] + s);
      assert a + r == a[..n] + ([a[n]] + r) && b + s == b[..n] + ([b[n]] + s);
      if a[n] < b[n] {
        FirstCharOrder(a[n], b[n], r, s);
      }
    }
  }

  lemma NoSlashInDigits(s: string, base: Base)
    requires AllDigits(s, base)
    ensures forall i | 0 <= i < |s| :: s[i] != '/'
    ensures base == 10 ==> AllDecimal(s)
  {
    forall i | 0 <= i < |s|
      ensures s[i] != '/' && (base == 10 ==> '0' <= s[i] <= '9')
    {
      assert IsDigit(s[i], base);
    }
  }

  lemma PaddedNoSlash(n: nat, w: nat, base: Base)
    ensures forall i | 0 <= i < |Padded(n, w, base, false)| :: Padded(n, w, base, false)[i] != '/'
    ensures base == 10 ==> AllDecimal(Padded(n, w, base, false))
  {
    hide Padded;
    ValueOfPadded(n, w, base, false);
    NoSlashInDigits(Padded(n, w, base, false), base);
  }

  lemma {:induction false} CmpAntisymmetric(a: string, b: string)
    ensures StrCaseCmp(a, b) < 0 <==> StrCaseCmp(b, a) > 0
  {
    if a != [] && b != [] {
      CmpAntisymmetric(a[1..], b[1..]);
    }
  }

  // ---- the six fields of a timestamp ----

  function Wide(k: nat): nat {
    if k == 0 then 4 else 2
  }

  /** Where field `k` of a timestamp starts; the sixth place is its end. */
  function Start(k: nat): (i: nat)
    requires k <= 6
    ensures i + (if k < 6 then Wide(k) else 0) <= 15
  {
    if k == 0 then 0 else if k == 1 then 4 else if k == 2 then 6 else if k == 3 then 9
    else if k == 4 then 11 else if k == 5 then 13 else 15
  }

  function Text(p: string, k: nat): (t: string)
    requires |p| >= 15 && k < 6
    ensures |t| == Wide(k)
  {
    p[Start(k)..Start(k) + Wide(k)]
  }

  /** The text from field `k` on. */
  function Tail(p: string, k: nat): string
    requires |p| >= 15 && k <= 6
  {
    p[Start(k)..]
  }

  /** The text after field `k`. */
  function Beyond(p: string, k: nat): string
    requires |p| >= 15 && k < 6
  {
    p[Start(k) + Wide(k)..]
  }

  function Field(p: string, k: nat): int
    requires |p| >= 15 && k < 6
  {
    FieldAt(p, Start(k), Wide(k))
  }

  /** The list parser accepts the timestamp at the start of the text. */
  predicate Accepted(p: string) {
    |p| >= 15 && p[8] == 'T' && forall k: nat | k < 6 :: Field(p, k) >= 0
  }

  function DateOf(p: string): Date
    requires Accepted(p)
  {
    Date(Field(p, 0), Field(p, 1), Field(p, 2), Field(p, 3), Field(p, 4), Field(p, 5))
  }

  /** Chronological order of dates. */
  predicate Earlier(a: Date, b: Date) {
    || a.year < b.year
    || (a.year == b.year && a.month < b.month)
    || (a.year == b.year && a.month == b.month && a.day < b.day)
    || (a.year == b.year && a.month == b.month && a.day == b.day && a.hour < b.hour)
    || (a.year == b.year && a.month == b.month && a.day == b.day && a.hour == b.hour && a.minute < b.minute)
    || (a.year == b.year && a.month == b.month && a.day == b.day && a.hour == b.hour && a.minute == b.minute
        && a.second < b.second)
  }

  /** The fields of `p` from number `k` on are earlier than those of `q`. */
  predicate Before(p: string, q: string, k: nat)
    requires |p| >= 15 && |q| >= 15 && k <= 6
    decreases 6 - k
  {
    k < 6 && (Field(p, k) < Field(q, k) || (Field(p, k) == Field(q, k) && Before(p, q, k + 1)))
  }

  lemma BeforeIsEarlier(p: string, q: string)
    requires Accepted(p) && Accepted(q)
    ensures Before(p, q, 0) <==> Earlier(DateOf(p), DateOf(q))
  {
    hide Field;
    assert !Before(p, q, 6);
    assert Before(p, q, 4) <==> Field(p, 4) < Field(q, 4) || (Field(p, 4) == Field(q, 4) && Field(p, 5) < Field(q, 5));
    assert Before(p, q, 2) <==> Field(p, 2) < Field(q, 2) || (Field(p, 2) == Field(q, 2) && Before(p, q, 3));
  }

  predicate PlainAt(p: string, k: nat)
    requires |p| >= 15 && k < 6
  {
    AllDecimal(Text(p, k))
  }

  predicate ZeroFrom(p: string, k: nat)
    requires |p| >= 15
  {
    forall j: nat | k <= j < 6 :: Field(p, j) == 0
  }

  /** From field `k` on: digits only, up to where all that is left is zero. */
  predicate Orderly(p: string, k: nat)
    requires |p| >= 15 && k <= 6
    decreases 6 - k
  {
    k == 6 || ZeroFrom(p, k) || (PlainAt(p, k) && Orderly(p, k + 1))
  }

  /** A field of digits holds the number they denote. */
  lemma PlainField(p: string, k: nat)
    requires |p| >= 15 && k < 6 && PlainAt(p, k)
    ensures Field(p, k) == Value(Text(p, k), 10) < if k == 0 then 10000 else 100
  {
    hide Value, Strtoul;
    var t := Text(p, k);
    ValueBelow(t);
    assert Pow(10, 2) == 10 * Pow(10, 1) == 100;
    assert Pow(10, 4) == 10 * Pow(10, 3) == 100 * Pow(10, 2);
    ParseDigits([], t, [], 10);
    assert [] + t + [] == t;
  }

  lemma TailSplit(p: string, k: nat)
    requires |p| >= 15 && k < 6
    ensures Tail(p, k) == Text(p, k) + Beyond(p, k)
  {
    hide Start;
    var i, w := Start(k), Wide(k);
    assert p[i..] == p[i..i + w] + p[i + w..];
  }

  /** What follows field `k`: the next field, after the T between day and hour. */
  lemma NextField(p: string, q: string, k: nat)
    requires |p| >= 15 && |q| >= 15 && p[8] == q[8] && k < 6
    ensures StrCaseCmp(Beyond(p, k), Beyond(q, k)) == StrCaseCmp(Tail(p, k + 1), Tail(q, k + 1))
  {
    if k == 2 {
      CommonPrefix([p[8]], p[9..], q[9..]);
      assert p[8..] == [p[8]] + p[9..] && q[8..] == [q[8]] + q[9..];
    }
  }

  /** One field of digits in two texts decides their order, or passes it on to the next field. */
  lemma FieldOrder(p: string, q: string, k: nat)
    requires |p| >= 15 && |q| >= 15 && p[8] == q[8] && k < 6 && PlainAt(p, k) && PlainAt(q, k)
    ensures Field(p, k) < Field(q, k) ==> StrCaseCmp(Tail(p, k), Tail(q, k)) < 0
    ensures Field(p, k) == Field(q, k) ==>
              StrCaseCmp(Tail(p, k), Tail(q, k)) == StrCaseCmp(Tail(p, k + 1), Tail(q, k + 1))
  {
    hide Field, StrCaseCmp, Value, Text, Start, Tail, Beyond;
    PlainField(p, k);
    PlainField(q, k);
    NextField(p, q, k);
    TailSplit(p, k);
    TailSplit(q, k);
    DigitsOrder(Text(p, k), Text(q, k), Beyond(p, k), Beyond(q, k));
  }

  /** An accepted field that is not all digits starts with a blank or a sign, which sort before every digit. */
  lemma OddStart(t: string)
    requires t != [] && Strtoul(t, 10).end == |t| && !AllDecimal(t)
    ensures Fold(t[0]) < '0' as int
  {
    var sp := SpaceRun(t);
    if sp == 0 && t[0] != '+' && t[0] != '-' {
      assert t[0..] == t;
      assert forall i | 0 <= i < |t| :: IsDigit(t[i], 10);
      assert false;
    }
  }

  /** Such a field sorts before any field of digits. */
  lemma OddFirst(p: string, q: string, k: nat)
    requires Accepted(p) && |q| >= 15 && k < 6 && !PlainAt(p, k) && PlainAt(q, k)
    ensures StrCaseCmp(Tail(p, k), Tail(q, k)) < 0
  {
    hide Strtoul;
    var t, u := Text(p, k), Text(q, k);
    assert Field(p, k) >= 0;
    OddStart(t);
    var x, y := Tail(p, k), Tail(q, k);
    assert x[0] == t[0] && y[0] == u[0];
    assert x == [x[0]] + x[1..] && y == [y[0]] + y[1..];
    FirstCharOrder(x[0], y[0], x[1..], y[1..]);
  }

  lemma OrderlyNext(p: string, k: nat)
    requires |p| >= 15 && k < 6 && Orderly(p, k)
    ensures PlainAt(p, k) || ZeroFrom(p, k)
    ensures PlainAt(p, k) ==> Orderly(p, k + 1)
  {
  }

  lemma {:induction false} NotBeforeZero(q: string, p: string, k: nat)
    requires Accepted(q) && |p| >= 15 && k <= 6 && ZeroFrom(p, k)
    ensures !Before(q, p, k)
    decreases 6 - k
  {
    hide Field;
    if k < 6 {
      assert Field(q, k) >= 0 && Field(p, k) == 0;
      NotBeforeZero(q, p, k + 1);
    }
  }

  /** Of two orderly timestamps the one that does not sort after the other is not the later one. */
  lemma {:induction false} OrderlyPair(p: string, q: string, k: nat)
    requires Accepted(p) && Accepted(q) && k <= 6 && Orderly(p, k) && Orderly(q, k)
    requires StrCaseCmp(Tail(p, k), Tail(q, k)) <= 0
    ensures !Before(q, p, k)
    decreases 6 - k
  {
    hide StrCaseCmp, Field, Text, PlainAt, Tail;
    if k < 6 {
      assert Field(p, k) >= 0 && Field(q, k) >= 0;
      CmpAntisymmetric(Tail(p, k), Tail(q, k));
      CmpAntisymmetric(Tail(q, k), Tail(p, k));
      OrderlyNext(p, k);
      OrderlyNext(q, k);
      if ZeroFrom(p, k) {
        NotBeforeZero(q, p, k);
      } else if !PlainAt(q, k) {
        OddFirst(q, p, k);
      } else {
        FieldOrder(p, q, k);
        FieldOrder(q, p, k);
        if Field(p, k) == Field(q, k) {
          OrderlyPair(p, q, k + 1);
        }
      }
    }
  }

  /** The two texts sort as their dates, as far as they differ. */
  predicate Ordered(p: string, q: string)
    requires Accepted(p) && Accepted(q)
  {
    && (StrCaseCmp(p, q) <= 0 ==> !Earlier(DateOf(q), DateOf(p)))
    && (StrCaseCmp(q, p) <= 0 ==> !Earlier(DateOf(p), DateOf(q)))
  }

  /** Any two orderly timestamps sort as their dates. */
  lemma OrderlyTexts(p: string, q: string)
    requires Accepted(p) && Accepted(q) && Orderly(p, 0) && Orderly(q, 0)
    ensures Ordered(p, q)
  {
    hide StrCaseCmp, Earlier, Orderly, Before;
    assert Tail(p, 0) == p && Tail(q, 0) == q;
    BeforeIsEarlier(p, q);
    BeforeIsEarlier(q, p);
    if StrCaseCmp(p, q) <= 0 {
      OrderlyPair(p, q, 0);
    }
    if StrCaseCmp(q, p) <= 0 {
      OrderlyPair(q, p, 0);
    }
  }

  // ---- printed timestamps ----

  /** Field `k` of a date. */
  function Part(d: Date, k: nat): word
    requires k < 6
  {
    if k == 0 then d.year else if k == 1 then d.month else if k == 2 then d.day
    else if k == 3 then d.hour else if k == 4 then d.minute else d.second
  }

  lemma StampTexts(d: Date, p: string)
    requires Printable(d) && Stamp(d) <= p
    ensures |p| >= 15
    ensures forall k: nat | k < 6 :: Text(p, k) == Padded(Part(d, k), Wide(k), 10, false)
  {
    hide Padded;
    FourDigits(d.year);
    TwoDigits(d.month);
    TwoDigits(d.day);
    TwoDigits(d.hour);
    TwoDigits(d.minute);
    TwoDigits(d.second);
    var s := Stamp(d);
    assert s == p[..15];
    assert p[0..4] == s[0..4] && p[4..6] == s[4..6] && p[6..8] == s[6..8];
    assert p[9..11] == s[9..11] && p[11..13] == s[11..13] && p[13..15] == s[13..15];
  }

  /** A text that starts with a printed timestamp is accepted, and its fields are the date's, in digits. */
  lemma PrintedFields(d: Date, p: string)
    requires Printable(d) && Stamp(d) <= p
    ensures Accepted(p) && DateOf(p) == d
    ensures forall k: nat | k < 6 :: Text(p, k) == Padded(Part(d, k), Wide(k), 10, false) && Field(p, k) == Part(d, k)
  {
    hide Padded, FieldAt;
    StampFields(d, p);
    StampTexts(d, p);
  }

  /** Printed timestamps are orderly. */
  lemma PrintedOrderly(d: Date, p: string)
    requires Printable(d) && Stamp(d) <= p
    ensures Accepted(p) && Orderly(p, 0) && forall k: nat | k < 6 :: PlainAt(p, k)
  {
    hide Padded, Text, Field, AllDecimal, ZeroFrom;
    PrintedFields(d, p);
    forall k: nat | k < 6
      ensures PlainAt(p, k)
    {
      PaddedNoSlash(Part(d, k), Wide(k), 10);
    }
    assert Orderly(p, 6);
    assert Orderly(p, 4);
    assert Orderly(p, 2);
  }

  lemma OneEarlier(a: Date, b: Date)
    requires a != b
    ensures Earlier(a, b) <==> !Earlier(b, a)
  {
  }

  /** For one core, printed names of different dates sort exactly as their dates. */
  lemma PrintedNamesSort(core: string, a: Backup, b: Backup)
    requires Printable(a.date) && Printable(b.date) && a.date != b.date
    ensures StrCaseCmp(BackupName(core, a), BackupName(core, b)) < 0 <==> Earlier(a.date, b.date)
  {
    hide StrCaseCmp, Stamp, Padded, Digits, Orderly;
    var x, y := Stamp(a.date) + NameRest(a), Stamp(b.date) + NameRest(b);
    NameParts(core, a);
    NameParts(core, b);
    CommonPrefix(core + ".", x, y);
    PrintedOrderly(a.date, x);
    PrintedOrderly(b.date, y);
    PrintedFields(a.date, x);
    PrintedFields(b.date, y);
    OrderlyTexts(x, y);
    CmpAntisymmetric(x, y);
    CmpAntisymmetric(y, x);
    OneEarlier(a.date, b.date);
  }

  // ---- timestamps that are accepted but not printed ----

  /** The first field that is not all digits, in a timestamp that is not orderly. */
  lemma {:induction false} FirstOdd(p: string, k: nat) returns (i: nat)
    requires |p| >= 15 && k <= 6 && !Orderly(p, k)
    ensures k <= i < 6 && !PlainAt(p, i) && !ZeroFrom(p, i) && forall j: nat | k <= j < i :: PlainAt(p, j)
    decreases 6 - k
  {
    hide PlainAt, ZeroFrom;
    if PlainAt(p, k) {
      i := FirstOdd(p, k + 1);
    } else {
      i := k;
    }
  }

  /** The fields of `p` below number `i`, and zero from there on. */
  function Low(p: string, i: nat, k: nat): word
    requires |p| >= 15 && k < 6
  {
    if k < i && Field(p, k) >= 0 then Field(p, k) else 0
  }

  function LowDate(p: string, i: nat): Date
    requires |p| >= 15
  {
    Date(Low(p, i, 0), Low(p, i, 1), Low(p, i, 2), Low(p, i, 3), Low(p, i, 4), Low(p, i, 5))
  }

  /** A field of digits is how its number prints. */
  lemma PlainPrints(p: string, k: nat)
    requires |p| >= 15 && k < 6 && PlainAt(p, k)
    ensures Field(p, k) >= 0 && Padded(Field(p, k), Wide(k), 10, false) == Text(p, k)
  {
    hide Value, Padded, Field;
    PlainField(p, k);
    var n := Field(p, k);
    if k == 0 {
      FourDigits(n);
    } else {
      TwoDigits(n);
    }
    PaddedNoSlash(n, Wide(k), 10);
    ValueOfPadded(n, Wide(k), 10, false);
    SameDigits(Padded(n, Wide(k), 10, false), Text(p, k));
  }

  lemma LowPrintable(p: string, i: nat)
    requires |p| >= 15 && i < 6 && forall j: nat | j < i :: PlainAt(p, j)
    ensures Printable(LowDate(p, i))
    ensures forall k: nat | k < 6 :: Part(LowDate(p, i), k) == Low(p, i, k)
  {
    hide Field, PlainAt, Value;
    forall k: nat | k < 6
      ensures Low(p, i, k) < if k == 0 then 10000 else 100
    {
      if k < i {
        PlainField(p, k);
      }
    }
    assert Low(p, i, 0) < 10000 && Low(p, i, 1) < 100 && Low(p, i, 2) < 100;
    assert Low(p, i, 3) < 100 && Low(p, i, 4) < 100 && Low(p, i, 5) < 100;
  }

  lemma {:induction false} ZeroBefore(q: string, p: string, k: nat)
    requires Accepted(p) && |q| >= 15 && k <= 6 && ZeroFrom(q, k) && !ZeroFrom(p, k)
    ensures Before(q, p, k)
    decreases 6 - k
  {
    hide Field;
    if k < 6 {
      assert Field(p, k) >= 0 && Field(q, k) == 0;
      if Field(p, k) == 0 {
        ZeroBefore(q, p, k + 1);
      }
    }
  }

  /** Where the first difference is a field that is not all digits, the text sorts first but is the later one. */
  lemma {:induction false} OddPair(p: string, q: string, i: nat, k: nat)
    requires Accepted(p) && Accepted(q) && k <= i < 6
    requires !PlainAt(p, i) && PlainAt(q, i) && !ZeroFrom(p, i) && ZeroFrom(q, i)
    requires forall j: nat | k <= j < i :: Text(p, j) == Text(q, j) && Field(p, j) == Field(q, j)
    ensures StrCaseCmp(Tail(p, k), Tail(q, k)) < 0 && Before(q, p, k)
    decreases i - k
  {
    hide StrCaseCmp, Field, Text, Tail, Beyond, PlainAt;
    if k == i {
      OddFirst(p, q, k);
      ZeroBefore(q, p, k);
    } else {
      OddPair(p, q, i, k + 1);
      NextField(p, q, k);
      TailSplit(p, k);
      TailSplit(q, k);
      CommonPrefix(Text(p, k), Beyond(p, k), Beyond(q, k));
    }
  }

  /** An accepted timestamp that is not orderly is out of order with some printed one, whatever follows that. */
  lemma OddWitness(p: string, rest: string) returns (d: Date)
    requires Accepted(p) && !Orderly(p, 0)
    ensures Printable(d) && Accepted(Stamp(d) + rest)
    ensures StrCaseCmp(p, Stamp(d) + rest) < 0 && Earlier(DateOf(Stamp(d) + rest), DateOf(p))
  {
    hide Orderly, StrCaseCmp, Field, Text, PlainAt, Earlier, Before, Stamp, Padded, AllDecimal;
    var i := FirstOdd(p, 0);
    d := LowDate(p, i);
    LowPrintable(p, i);
    var q := Stamp(d) + rest;
    PrintedFields(d, q);
    PrintedOrderly(d, q);
    forall j: nat | j < i
      ensures Text(p, j) == Text(q, j) && Field(p, j) == Field(q, j)
    {
      PlainPrints(p, j);
    }
    assert ZeroFrom(q, i);
    OddPair(p, q, i, 0);
    assert Tail(p, 0) == p && Tail(q, 0) == q;
    BeforeIsEarlier(q, p);
  }

  /**
   * An accepted timestamp sorts as its date against every printed one exactly when it is orderly: digits only, or
   * digits up to a field from which on everything is zero.
   */
  lemma StampExact(p: string, rest: string)
    requires Accepted(p)
    ensures forall d: Date | Printable(d) :: Accepted(Stamp(d) + rest)
    ensures Orderly(p, 0) <==> forall d: Date | Printable(d) :: Ordered(p, Stamp(d) + rest)
  {
    hide StrCaseCmp, Earlier, Stamp, Field, Orderly, DateOf;
    forall d: Date | Printable(d)
      ensures Accepted(Stamp(d) + rest) && (Orderly(p, 0) ==> Ordered(p, Stamp(d) + rest))
    {
      PrintedOrderly(d, Stamp(d) + rest);
      if Orderly(p, 0) {
        OrderlyTexts(p, Stamp(d) + rest);
      }
    }
    if !Orderly(p, 0) {
      var d := OddWitness(p, rest);
      assert !Ordered(p, Stamp(d) + rest);
    }
  }
}
