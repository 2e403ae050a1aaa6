/** Numbers as text: the conversions of `snprintf` (%u, %0<w>u, %x, %02X) and of `strtoul`. */
module Numerals {
  const ULONG_MAX := 0xFFFF_FFFF_FFFF_FFFF

  type Base = b: nat | b == 8 || b == 10 || b == 16 witness 10

  predicate IsSpace(c: char) {
    c == ' ' || c == '\t' || c == '\n' || c == '\r' || c == '\U{0B}' || c == '\U{0C}'
  }

  /** The value of a digit character, or 99 for any other character. */
  function DigitValue(c: char): nat {
    if '0' <= c <= '9' then c as int - '0' as int
    else if 'a' <= c <= 'z' then 10 + (c as int - 'a' as int)
    else if 'A' <= c <= 'Z' then 10 + (c as int - 'A' as int)
    else 99
  }

  predicate IsDigit(c: char, base: nat) {
    DigitValue(c) < base
  }

  predicate AllDigits(s: string, base: nat) {
    forall i | 0 <= i < |s| :: IsDigit(s[i], base)
  }

  function DigitChar(d: nat, upper: bool): (c: char)
    requires d < 16
  {
    if upper then "0123456789ABCDEF"[d] else "0123456789abcdef"[d]
  }

  lemma DigitCharValue(d: nat, upper: bool)
    requires d < 16
    ensures DigitValue(DigitChar(d, upper)) == d
    ensures d > 0 ==> DigitChar(d, upper) != '0'
  {
  }

  // ---- printing ----

  /** The digits of `n`, without leading zeros: `%u`, `%x`, `%X`. */
  function Digits(n: nat, base: Base, upper: bool): (s: string)
    ensures |s| > 0
  {
    if n < base then [DigitChar(n, upper)]
    else Digits(n / base, base, upper) + [DigitChar(n % base, upper)]
  }

  function Zeros(n: nat): (s: string)
    ensures |s| == n && forall i | 0 <= i < n :: s[i] == '0'
  {
    seq(n, _ => '0')
  }

  /** `%0<w>u` and the like: at least `w` characters, zero-filled. */
  function Padded(n: nat, w: nat, base: Base, upper: bool): (s: string)
    ensures |s| >= w && |s| > 0
  {
    var d := Digits(n, base, upper);
    if |d| >= w then d else Zeros(w - |d|) + d
  }

  function Pow(base: nat, n: nat): nat {
    if n == 0 then 1 else base * Pow(base, n - 1)
  }

  /** The number a string of digits denotes. */
  function Value(s: string, base: nat): nat {
    if s == [] then 0 else Value(s[..|s| - 1], base) * base + DigitValue(s[|s| - 1])
  }

  lemma ValueStep(s: string, c: char, base: nat)
    ensures Value(s + [c], base) == Value(s, base) * base + DigitValue(c)
  {
    assert (s + [c])[..|s|] == s;
  }

  lemma DivModBase(n: nat, base: Base)
    ensures n / base * base + n % base == n && n % base < 16
    ensures n >= base ==> n / base < n && n / base > 0
  {
  }

  lemma DigitsStep(n: nat, base: Base, upper: bool)
    requires n >= base
    ensures Digits(n, base, upper) == Digits(n / base, base, upper) + [DigitChar(n % base, upper)]
  {
  }

  lemma DigitsAppend(s: string, d: nat, base: Base, upper: bool)
    requires AllDigits(s, base) && d < base
    ensures AllDigits(s + [DigitChar(d, upper)], base)
    ensures Value(s + [DigitChar(d, upper)], base) == Value(s, base) * base + d
  {
    DigitCharValue(d, upper);
    ValueStep(s, DigitChar(d, upper), base);
  }

  lemma ValueOfNothing(base: nat)
    ensures Value([], base) == 0
  {
  }

  /** Printing and reading back gives the number. */
  lemma {:induction false} ValueOfDigits(n: nat, base: Base, upper: bool)
    ensures Value(Digits(n, base, upper), base) == n && AllDigits(Digits(n, base, upper), base)
    ensures n > 0 ==> Digits(n, base, upper)[0] != '0'
  {
    hide DigitValue, DigitChar, IsDigit, Value;
    if n < base {
      DigitCharValue(n, upper);
      ValueOfNothing(base);
      DigitsAppend([], n, base, upper);
      assert [] + [DigitChar(n, upper)] == [DigitChar(n, upper)];
    } else {
      hide Digits, AllDigits;
      DivModBase(n, base);
      ValueOfDigits(n / base, base, upper);
      DigitsStep(n, base, upper);
      DigitsAppend(Digits(n / base, base, upper), n % base, base, upper);
    }
  }

  lemma ZeroDigit()
    ensures DigitValue('0') == 0
  {
  }

  lemma {:induction false} LeadingZeros(k: nat, s: string, base: nat)
    ensures Value(Zeros(k) + s, base) == Value(s, base)
  {
    hide DigitValue;
    if s != [] {
      var front, c := s[..|s| - 1], s[|s| - 1];
      LeadingZeros(k, front, base);
      assert Zeros(k) + s == (Zeros(k) + front) + [c] && s == front + [c];
      ValueStep(Zeros(k) + front, c, base);
      ValueStep(front, c, base);
    } else if k > 0 {
      LeadingZeros(k - 1, [], base);
      assert Zeros(k) + [] == (Zeros(k - 1) + []) + ['0'];
      ZeroDigit();
      ValueStep(Zeros(k - 1) + [], '0', base);
    } else {
      assert Zeros(0) + s == s;
    }
  }

  lemma ValueOfPadded(n: nat, w: nat, base: Base, upper: bool)
    ensures Value(Padded(n, w, base, upper), base) == n && AllDigits(Padded(n, w, base, upper), base)
  {
    var d := Digits(n, base, upper);
    ValueOfDigits(n, base, upper);
    if |d| < w {
      LeadingZeros(w - |d|, d, base);
      ZeroDigit();
    }
  }

  lemma PowOne(base: nat)
    ensures Pow(base, 1) == base
  {
    assert Pow(base, 1) == base * Pow(base, 0);
  }

  lemma PositiveFactor(x: int, y: int)
    requires x > 0 && x * y > 0
    ensures y > 0
  {
  }

  lemma QuotientBelow(n: nat, base: nat, p: nat)
    requires base > 0 && n < base * p
    ensures n / base < p
  {
    assert base * (n / base) <= n;
    PositiveFactor(base, p - n / base);
  }

  /** A number below base^w prints in at most `w` digits. */
  lemma {:induction false} DigitsWidth(n: nat, base: Base, upper: bool, w: nat)
    requires w > 0 && n < Pow(base, w)
    ensures |Digits(n, base, upper)| <= w
  {
    if n >= base {
      PowOne(base);
      QuotientBelow(n, base, Pow(base, w - 1));
      DigitsWidth(n / base, base, upper, w - 1);
    }
  }

  lemma PaddedWidth(n: nat, w: nat, base: Base, upper: bool)
    requires w > 0 && n < Pow(base, w)
    ensures |Padded(n, w, base, upper)| == w
  {
    DigitsWidth(n, base, upper, w);
  }

  // ---- strtoul ----

  datatype Parsed = Parsed(value: nat, end: nat)

  function SpaceRun(s: string): (n: nat)
    ensures n <= |s| && (forall i | 0 <= i < n :: IsSpace(s[i])) && (n < |s| ==> !IsSpace(s[n]))
  {
    if s == [] || !IsSpace(s[0]) then 0 else 1 + SpaceRun(s[1..])
  }

  function DigitRun(s: string, base: nat): (n: nat)
    ensures n <= |s| && (forall i | 0 <= i < n :: IsDigit(s[i], base)) && (n < |s| ==> !IsDigit(s[n], base))
  {
    if s == [] || !IsDigit(s[0], base) then 0 else 1 + DigitRun(s[1..], base)
  }

  /** A "0x" that is followed by a hexadecimal digit, at position `i`. */
  predicate HexPrefix(s: string, i: nat) {
    i + 2 < |s| && s[i] == '0' && (s[i + 1] == 'x' || s[i + 1] == 'X') && IsDigit(s[i + 2], 16)
  }

  /**
   * The number at the start of a text: its sign, the digits' value without limit, and where it ends (0 if there is
   * none).
   */
  datatype Scanned = Scanned(magnitude: nat, end: nat, negative: bool)

  /** The scan of `strtoul`; base 0 takes the base from the prefix. */
  function ScanNumber(s: string, base: nat): (c: Scanned)
    requires base == 0 || base == 10 || base == 16
    ensures c.end <= |s| && (c.end == 0 ==> c == Scanned(0, 0, false))
  {
    var sp := SpaceRun(s);
    var i := if sp < |s| && (s[sp] == '+' || s[sp] == '-') then sp + 1 else sp;
    var hex := base != 10 && HexPrefix(s, i);
    var b := if base != 0 then base else if hex then 16 else if i < |s| && s[i] == '0' then 8 else 10;
    var j := if hex then i + 2 else i;
    var n := DigitRun(s[j..], b);
    if n == 0 then Scanned(0, 0, false)
    else Scanned(Value(s[j..j + n], b), j + n, sp < |s| && s[sp] == '-')
  }

  /** The number does not fit in an `unsigned long`: `errno` becomes ERANGE. */
  predicate OutOfRange(s: string, base: nat)
    requires base == 0 || base == 10 || base == 16
  {
    ScanNumber(s, base).magnitude > ULONG_MAX
  }

  /** `strtoul(s, &end, base)` with a 64-bit `unsigned long`. */
  function Strtoul(s: string, base: nat): (p: Parsed)
    requires base == 0 || base == 10 || base == 16
    ensures p.end <= |s| && p.value <= ULONG_MAX
  {
    var c := ScanNumber(s, base);
    Parsed(if c.magnitude > ULONG_MAX then ULONG_MAX
           else if c.negative then (ULONG_MAX + 1 - c.magnitude) % (ULONG_MAX + 1)
           else c.magnitude, c.end)
  }

  lemma DigitIsPlain(c: char)
    requires IsDigit(c, 16)
    ensures !IsSpace(c) && c != '+' && c != '-' && c != 'x' && c != 'X'
  {
  }

  /** `rest` does not continue the number `ds` that stands before it. */
  predicate Ends(ds: string, rest: string, base: nat) {
    && (rest != [] ==> !IsDigit(rest[0], base))
    && (|ds| == 1 && rest != [] ==> rest[0] != 'x' && rest[0] != 'X')
  }

  lemma SpaceRunIs(s: string, n: nat)
    requires n < |s| && (forall i | 0 <= i < n :: IsSpace(s[i])) && !IsSpace(s[n])
    ensures SpaceRun(s) == n
  {
  }

  /** Without a prefix the number starts at the first digit. */
  lemma NoPrefix(spaces: string, ds: string, rest: string)
    requires |ds| == 1 && rest != [] ==> rest[0] != 'x' && rest[0] != 'X'
    requires (forall i | 0 <= i < |spaces| :: IsSpace(spaces[i])) && ds != [] && AllDigits(ds, 16)
    ensures var s, k := spaces + ds + rest, |spaces|;
            SpaceRun(s) == k && k < |s| && s[k] != '+' && s[k] != '-' && !HexPrefix(s, k)
  {
    hide DigitValue;
    var s, k := spaces + ds + rest, |spaces|;
    DigitIsPlain(ds[0]);
    assert s[k] == ds[0];
    SpaceRunIs(s, k);
    if |ds| >= 2 {
      DigitIsPlain(ds[1]);
      assert s[k + 1] == ds[1];
    } else if rest != [] {
      assert s[k + 1] == rest[0];
    }
  }

  lemma WiderDigits(ds: string, base: nat)
    requires base <= 16 && AllDigits(ds, base)
    ensures AllDigits(ds, 16)
  {
  }

  lemma DigitRunIs(s: string, n: nat, base: nat)
    requires n <= |s| && (forall i | 0 <= i < n :: IsDigit(s[i], base)) && (n < |s| ==> !IsDigit(s[n], base))
    ensures DigitRun(s, base) == n
  {
  }

  /** A run of digits after white space is read to its end, as the number it denotes. */
  lemma ParseDigits(spaces: string, ds: string, rest: string, base: nat)
    requires base == 10 || base == 16
    requires (forall i | 0 <= i < |spaces| :: IsSpace(spaces[i])) && ds != [] && AllDigits(ds, base) && Ends(ds,
        rest, base)
    requires Value(ds, base) <= ULONG_MAX
    ensures Strtoul(spaces + ds + rest, base) == Parsed(Value(ds, base), |spaces| + |ds|)
  {
    hide DigitValue, Value, HexPrefix, SpaceRun, DigitRun;
    var s, k := spaces + ds + rest, |spaces|;
    WiderDigits(ds, base);
    NoPrefix(spaces, ds, rest);
    assert s[k..] == ds + rest;
    DigitRunIs(ds + rest, |ds|, base);
    assert s[k..k + |ds|] == ds;
  }

  /** The base a number is read in: that of its prefix, else the one asked for, else octal after a zero, or decimal. */
  predicate ReadIn(b: nat, prefix: string, ds: string, base: nat)
    requires ds != []
  {
    && (prefix == "" || ((prefix == "0x" || prefix == "0X") && base != 10))
    && b == (if prefix != "" then 16 else if base != 0 then base else if ds[0] == '0' then 8 else 10)
  }

  lemma SignPlain(c: char)
    requires c == '+' || c == '-'
    ensures !IsSpace(c) && !IsDigit(c, 16)
  {
  }

  lemma PrefixFound(pre: string, ds: string, tail: string, s: string)
    requires (pre == "0x" || pre == "0X") && ds != [] && IsDigit(ds[0], 16) && s == pre + ds + tail
    ensures HexPrefix(s, 0)
  {
    hide IsDigit;
    assert s[2] == ds[0];
  }

  lemma PrefixMissing(ds: string, tail: string, s: string)
    requires ds != [] && AllDigits(ds, 16) && s == ds + tail
    requires |ds| == 1 && |tail| >= 2 && (tail[0] == 'x' || tail[0] == 'X') ==> !IsDigit(tail[1], 16)
    ensures !HexPrefix(s, 0)
  {
    hide DigitValue;
    if |ds| >= 2 {
      DigitIsPlain(ds[1]);
      assert s[1] == ds[1];
    } else if |tail| >= 2 {
      assert s[1] == tail[0] && s[2] == tail[1];
    }
  }

  lemma PrefixAt(front: string, s: string)
    ensures HexPrefix(front + s, |front|) == HexPrefix(s, 0)
  {
    hide IsDigit;
  }

  lemma StartsPlain(prefix: string, ds: string, base: nat, b: nat)
    requires ds != [] && b <= 16 && AllDigits(ds, b) && ReadIn(b, prefix, ds, base)
    ensures var c := (prefix + ds)[0]; !IsSpace(c) && c != '+' && c != '-'
  {
    hide DigitValue;
    WiderDigits(ds, b);
    DigitIsPlain(ds[0]);
    if prefix != "" {
      ZeroDigit();
      DigitIsPlain('0');
    } else {
      assert prefix + ds == ds;
    }
  }

  /** The white space `strtoul` passes over. */
  lemma SpaceChars(c: char)
    ensures IsSpace(c) <==> c in " \t\n\r\U{0B}\U{0C}"
  {
    var spaces := " \t\n\r\U{0B}\U{0C}";
    assert spaces[0] == ' ' && spaces[1] == '\t' && spaces[2] == '\n' && spaces[3] == '\r';
    assert spaces[4] == '\U{0B}' && spaces[5] == '\U{0C}';
  }

  /** Where the number starts: after the spaces and the sign. */
  lemma FrontIs(spaces: string, sign: string, tail: string, s: string)
    requires s == spaces + sign + tail && (forall c | c in spaces :: IsSpace(c))
    requires (sign == "" || sign == "+" || sign == "-") && tail != []
    requires !IsSpace(tail[0]) && tail[0] != '+' && tail[0] != '-'
    ensures SpaceRun(s) == |spaces| < |s|
    ensures sign != "" <==> s[|spaces|] == '+' || s[|spaces|] == '-'
    ensures sign == "-" <==> s[|spaces|] == '-'
    ensures s[|spaces| + |sign|..] == tail
  {
    hide IsSpace, SpaceRun, IsDigit;
    if sign != "" {
      SignPlain(sign[0]);
    }
    assert s[|spaces|] == (sign + tail)[0];
    SpaceRunIs(s, |spaces|);
  }

  /** What a scan gives, from where its parts are. */
  lemma ScanIs(s: string, base: nat, sp: nat, i: nat, p: nat, b: nat, n: nat)
    requires (base == 0 || base == 10 || base == 16) && SpaceRun(s) == sp < |s| && n > 0
    requires i == (if s[sp] == '+' || s[sp] == '-' then sp + 1 else sp) < |s|
    requires p == (if base != 10 && HexPrefix(s, i) then 2 else 0) && i + p + n <= |s|
    requires b == if base != 0 then base else if HexPrefix(s, i) then 16 else if s[i] == '0' then 8 else 10
    requires n == DigitRun(s[i + p..], b)
    ensures ScanNumber(s, base) == Scanned(Value(s[i + p..i + p + n], b), i + p + n, s[sp] == '-')
  {
    hide IsDigit, Value, HexPrefix, SpaceRun, DigitRun;
  }

  /** What the scan meets after spaces and sign. */
  lemma TailIs(prefix: string, ds: string, rest: string, base: nat, b: nat, tail: string)
    requires base == 0 || base == 10 || base == 16
    requires b <= 16 && ds != [] && AllDigits(ds, b) && ReadIn(b, prefix, ds, base) && tail == prefix + ds + rest
    requires prefix == "" && |ds| == 1 && |rest| >= 2 && (rest[0] == 'x' || rest[0] == 'X') ==> !IsDigit(rest[1], 16)
    ensures tail != [] && !IsSpace(tail[0]) && tail[0] != '+' && tail[0] != '-'
    ensures base != 10 && HexPrefix(tail, 0) <==> prefix != ""
    ensures |prefix| == if base != 10 && HexPrefix(tail, 0) then 2 else 0
    ensures b == if base != 0 then base else if HexPrefix(tail, 0) then 16 else if tail[0] == '0' then 8 else 10
    ensures tail[|prefix|..] == ds + rest && (ds + rest)[..|ds|] == ds
  {
    hide IsDigit, HexPrefix, IsSpace;
    StartsPlain(prefix, ds, base, b);
    assert tail[0] == (prefix + ds)[0];
    WiderDigits(ds, b);
    if prefix != "" {
      PrefixFound(prefix, ds, rest, tail);
    } else {
      assert tail == ds + rest;
      PrefixMissing(ds, rest, tail);
    }
  }

  lemma SliceFrom(s: string, i: nat, p: nat, n: nat, tail: string)
    requires i <= |s| && s[i..] == tail && p + n <= |tail|
    ensures s[i + p..] == tail[p..] && s[i + p..i + p + n] == tail[p..][..n]
    ensures tail != [] ==> s[i] == tail[0]
  {
    assert forall k | i <= k < |s| :: s[k] == tail[k - i];
  }

  lemma SliceThere(s: string, j: nat, ds: string, rest: string)
    requires j <= |s| && s[j..] == ds + rest
    ensures j + |ds| <= |s| && s[j..j + |ds|] == ds
  {
    assert s[j..j + |ds|] == s[j..][..|ds|];
  }

  lemma ScanDigits(s: string, base: nat, sp: nat, i: nat, p: nat, ds: string, rest: string, b: nat)
    requires (base == 0 || base == 10 || base == 16) && SpaceRun(s) == sp < |s|
    requires i == (if s[sp] == '+' || s[sp] == '-' then sp + 1 else sp) < |s|
    requires p == (if base != 10 && HexPrefix(s, i) then 2 else 0) && i + p <= |s|
    requires b == if base != 0 then base else if HexPrefix(s, i) then 16 else if s[i] == '0' then 8 else 10
    requires s[i + p..] == ds + rest && ds != [] && AllDigits(ds, b) && (rest != [] ==> !IsDigit(rest[0], b))
    ensures ScanNumber(s, base) == Scanned(Value(ds, b), i + p + |ds|, s[sp] == '-')
  {
    hide IsDigit, Value, HexPrefix, SpaceRun, DigitRun, ScanNumber;
    DigitRunIs(ds + rest, |ds|, b);
    SliceThere(s, i + p, ds, rest);
    ScanIs(s, base, sp, i, p, b, |ds|);
  }

  lemma FiveParts(a: string, b: string, c: string, d: string, e: string)
    ensures a + b + c + d + e == a + b + (c + d + e)
  {
  }

  /** The parts a scan goes through, given what it meets in order. */
  lemma ScanParts(spaces: string, sign: string, prefix: string, ds: string, rest: string, base: nat, b: nat)
    requires (base == 0 || base == 10 || base == 16) && b <= 16
    requires (forall c | c in spaces :: IsSpace(c)) && (sign == "" || sign == "+" || sign == "-")
    requires ds != [] && AllDigits(ds, b) && ReadIn(b, prefix, ds, base)
    requires rest != [] ==> !IsDigit(rest[0], b)
    requires prefix == "" && |ds| == 1 && |rest| >= 2 && (rest[0] == 'x' || rest[0] == 'X') ==> !IsDigit(rest[1], 16)
    ensures ScanNumber(spaces + sign + prefix + ds + rest, base)
            == Scanned(Value(ds, b), |spaces| + |sign| + |prefix| + |ds|, sign == "-")
  {
    hide IsDigit, Value, HexPrefix, SpaceRun, DigitRun, IsSpace, ScanNumber, AllDigits, ReadIn;
    var tail, i := prefix + ds + rest, |spaces| + |sign|;
    var s := spaces + sign + tail;
    FiveParts(spaces, sign, prefix, ds, rest);
    TailIs(prefix, ds, rest, base, b, tail);
    FrontIs(spaces, sign, tail, s);
    PrefixAt(spaces + sign, tail);
    SliceFrom(s, i, |prefix|, 0, tail);
    ScanDigits(s, base, |spaces|, i, |prefix|, ds, rest, b);
  }

  /**
   * `strtoul` on every number: white space, a sign, a prefix and digits, up to what no longer belongs to them. A number
   * beyond 64 bits gives 2^64 - 1 and counts as out of range; a minus sign negates in 64 bits.
   */
  lemma StrtoulExact(spaces: string, sign: string, prefix: string, ds: string, rest: string, base: nat, b: nat)
    requires (base == 0 || base == 10 || base == 16) && b <= 16
    requires (forall c | c in spaces :: c in " \t\n\r\U{0B}\U{0C}") && (sign == "" || sign == "+" || sign == "-")
    requires ds != [] && AllDigits(ds, b) && ReadIn(b, prefix, ds, base)
    requires rest != [] ==> !IsDigit(rest[0], b)
    requires prefix == "" && |ds| == 1 && |rest| >= 2 && (rest[0] == 'x' || rest[0] == 'X') ==> !IsDigit(rest[1], 16)
    ensures var s, v := spaces + sign + prefix + ds + rest, Value(ds, b);
            && Strtoul(s, base).end == |spaces| + |sign| + |prefix| + |ds|
            && Strtoul(s, base).value == (if v > 0xFFFF_FFFF_FFFF_FFFF then 0xFFFF_FFFF_FFFF_FFFF
                                          else if sign == "-" && v > 0 then 0x1_0000_0000_0000_0000 - v else v)
            && (OutOfRange(s, base) <==> v > 0xFFFF_FFFF_FFFF_FFFF)
  {
    hide IsDigit, Value, ScanNumber, AllDigits, IsSpace;
    forall c | c in spaces
      ensures IsSpace(c)
    {
      SpaceChars(c);
    }
    ScanParts(spaces, sign, prefix, ds, rest, base, b);
  }

  lemma {:induction false} AllSpaces(s: string)
    requires forall c | c in s :: IsSpace(c)
    ensures SpaceRun(s) == |s|
  {
    if s != [] {
      assert s[0] in s && forall c | c in s[1..] :: c in s;
      AllSpaces(s[1..]);
    }
  }

  lemma NoDigitAt(s: string, base: nat, i: nat)
    requires (base == 0 || base == 10 || base == 16) && i <= |s| && SpaceRun(s) <= |s|
    requires i == if SpaceRun(s) < |s| && (s[SpaceRun(s)] == '+' || s[SpaceRun(s)] == '-') then SpaceRun(s) + 1
                  else SpaceRun(s)
    requires i < |s| ==> !IsDigit(s[i], 16)
    ensures Strtoul(s, base) == Parsed(0, 0)
  {
    hide Value, SpaceRun, DigitRun;
    DigitRunIs(s[i..], 0, if base == 0 then 10 else base);
  }

  /** Text without a digit where a number should be is no number: nothing is consumed. */
  lemma NoDigitNoNumber(spaces: string, sign: string, rest: string, base: nat)
    requires base == 0 || base == 10 || base == 16
    requires (forall c | c in spaces :: c in " \t\n\r\U{0B}\U{0C}") && (sign == "" || sign == "+" || sign == "-")
    requires rest != [] ==> !IsDigit(rest[0], 16) && rest[0] !in " \t\n\r\U{0B}\U{0C}"
    requires sign == "" && rest != [] ==> rest[0] != '+' && rest[0] != '-'
    ensures Strtoul(spaces + sign + rest, base) == Parsed(0, 0)
  {
    hide Value, SpaceRun, DigitRun, IsSpace, IsDigit, Strtoul;
    var s := spaces + sign + rest;
    forall c
      ensures IsSpace(c) <==> c in " \t\n\r\U{0B}\U{0C}"
    {
      SpaceChars(c);
    }
    if sign + rest == [] {
      assert s == spaces;
      AllSpaces(s);
    } else {
      if sign != "" {
        SignPlain(sign[0]);
      }
      assert s[|spaces|] == (sign + rest)[0];
      SpaceRunIs(s, |spaces|);
    }
    var i := |spaces| + |sign|;
    assert i < |s| ==> s[i] == rest[0];
    NoDigitAt(s, base, i);
  }

  /** The digits, as characters. */
  lemma DigitTexts(d: nat)
    requires d < 16
    ensures DigitChar(d, false) == "0123456789abcdef"[d] && DigitChar(d, true) == "0123456789ABCDEF"[d]
    ensures DigitValue("0123456789abcdef"[d]) == DigitValue("0123456789ABCDEF"[d]) == d
  {
  }

  /** Printing uses the letters of one case. */
  lemma {:induction false} DigitsCase(n: nat, base: Base, upper: bool)
    ensures forall c | c in Digits(n, base, upper) ::
              '0' <= c <= '9' || (if upper then 'A' <= c <= 'F' else 'a' <= c <= 'f')
  {
    if n >= base {
      DivModBase(n, base);
      DigitsCase(n / base, base, upper);
    }
  }

  /** A plus sign is taken as part of the number. */
  lemma ParseSigned(d: string)
    requires d != [] && AllDigits(d, 10) && Value(d, 10) <= ULONG_MAX
    ensures Strtoul("+" + d, 10) == Parsed(Value(d, 10), 1 + |d|)
  {
    hide DigitValue, Value, SpaceRun, DigitRun, HexPrefix;
    var s := "+" + d;
    SpaceRunIs(s, 0);
    DigitRunIs(d, |d|, 10);
    assert s[1..] == d && s[1..1 + |d|] == d;
  }

  lemma NoHexPrefix(s: string)
    requires |s| == 1
    ensures !HexPrefix(s, 0)
  {
  }

  /** With base 0 a lone zero is octal, and still zero. */
  lemma ParseZero(s: string)
    requires |s| == 1 && s[0] == '0'
    ensures Strtoul(s, 0) == Parsed(0, 1) && !OutOfRange(s, 0)
  {
    hide DigitValue, Value, SpaceRun, DigitRun, HexPrefix;
    ZeroDigit();
    SpaceRunIs(s, 0);
    DigitRunIs(s, 1, 8);
    assert s[0..] == s && s[0..1] == s;
    assert s == [] + ['0'];
    ValueStep([], '0', 8);
    ValueOfNothing(8);
    NoHexPrefix(s);
  }
}
