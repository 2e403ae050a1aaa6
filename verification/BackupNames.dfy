/** Core backup file names: the printer, the list parser, the two other readers, and the order of names. */
module BackupNames {
  import opened Words
  import opened Numerals
  import opened Wrappers

  datatype Date = Date(year: word, month: word, day: word, hour: word, minute: word, second: word)

  datatype Backup = Backup(date: Date, crc: word, mode: word)

  /** A date that prints in the fixed fields: a year of at most four digits, two digits for the rest. */
  predicate Printable(d: Date) {
    d.year < 10000 && d.month < 100 && d.day < 100 && d.hour < 100 && d.minute < 100 && d.second < 100
  }

  const EXTENSION := ".lcbk"

  // ---- printing ----

  function Stamp(d: Date): string {
    Padded(d.year, 4, 10, false) + Padded(d.month, 2, 10, false) + Padded(d.day, 2, 10, false) + "T"
    + Padded(d.hour, 2, 10, false) + Padded(d.minute, 2, 10, false) + Padded(d.second, 2, 10, false)
  }

  /** The part of the name between the core's name and the extension. */
  function Metadata(b: Backup): string {
    "." + Stamp(b.date) + "." + Padded(b.crc, 8, 16, false) + "." + Digits(b.mode, 10, false)
  }

  /** `"%s.%04u%02u%02uT%02u%02u%02u.%08lx.%u%s"` */
  function BackupName(core: string, b: Backup): string {
    core + Metadata(b) + EXTENSION
  }

  /** The part of a name after the timestamp. */
  function NameRest(b: Backup): string {
    "." + Padded(b.crc, 8, 16, false) + "." + Digits(b.mode, 10, false) + EXTENSION
  }

  lemma NameParts(core: string, b: Backup)
    ensures BackupName(core, b) == core + "." + (Stamp(b.date) + NameRest(b))
  {
    hide Padded, Digits, Stamp;
  }

  // ---- the list parser ----

  /** Position of the last period, or -1. */
  function LastDot(s: string): (i: int)
    ensures -1 <= i < |s|
    ensures i >= 0 ==> s[i] == '.'
    ensures forall k | i < k < |s| :: s[k] != '.'
  {
    if s == [] then -1
    else if s[|s| - 1] == '.' then |s| - 1
    else LastDot(s[..|s| - 1])
  }

  /** The text before the last period: the name without its extension. */
  function WithoutExtension(s: string): string {
    if LastDot(s) < 0 then s else s[..LastDot(s)]
  }

  /** A field of `w` characters that `strtoul` reads to its end, or -1. */
  function FieldAt(p: string, at: nat, w: nat): (v: int)
    requires at + w <= |p|
    ensures -1 <= v < WORD_SIZE
  {
    var r := Strtoul(p[at..at + w], 10);
    if r.end == w then Wrap(r.value) else -1
  }

  /** Checksum and mode after the timestamp. */
  function ParseTail(d: Date, q: string): Option<Backup> {
    var c := Strtoul(q, 16);
    if c.end != 8 || |q| == 8 || q[8] != '.' then None
    else
      var m := Strtoul(q[9..], 10);
      if m.end == 0 || m.end != |q[9..]| then None
      else Some(Backup(d, Wrap(c.value), Wrap(m.value)))
  }

  /** Timestamp, checksum and mode. */
  function ParseMetadata(p: string): Option<Backup> {
    if |p| < 15 || p[8] != 'T' then None
    else
      var y, mo, d := FieldAt(p, 0, 4), FieldAt(p, 4, 2), FieldAt(p, 6, 2);
      var h, mi, s := FieldAt(p, 9, 2), FieldAt(p, 11, 2), FieldAt(p, 13, 2);
      if y < 0 || mo < 0 || d < 0 || h < 0 || mi < 0 || s < 0 then None
      else if |p| == 15 || p[15] != '.' then None
      else ParseTail(Date(y, mo, d, h, mi, s), p[16..])
  }

  /** What `core_backup_add_entry` reads from a file name, for the core `core`. */
  function Parse(core: string, name: string): Option<Backup> {
    if !(core <= name) then None
    else
      var s := WithoutExtension(name[|core|..]);
      if s == [] || s[0] != '.' then None else ParseMetadata(s[1..])
  }

  // ---- round trip ----

  lemma LastDotIs(s: string, i: nat)
    requires i < |s| && s[i] == '.' && forall k | i < k < |s| :: s[k] != '.'
    ensures LastDot(s) == i
  {
  }

  /** The extension's period is the last one. */
  lemma StripExtension(s: string)
    ensures WithoutExtension(s + EXTENSION) == s
  {
    LastDotIs(s + EXTENSION, |s|);
  }

  lemma TwoDigits(n: nat)
    requires n < 100
    ensures |Padded(n, 2, 10, false)| == 2
  {
    assert Pow(10, 2) == 10 * Pow(10, 1) == 100;
    PaddedWidth(n, 2, 10, false);
  }

  lemma FourDigits(n: nat)
    requires n < 10000
    ensures |Padded(n, 4, 10, false)| == 4
  {
    assert Pow(10, 2) == 10 * Pow(10, 1) == 100;
    assert Pow(10, 4) == 10 * Pow(10, 3) == 100 * Pow(10, 2);
    PaddedWidth(n, 4, 10, false);
  }

  lemma EightHexDigits(n: word)
    ensures |Padded(n, 8, 16, false)| == 8
  {
    assert Pow(16, 2) == 16 * Pow(16, 1) == 0x100;
    assert Pow(16, 4) == 16 * Pow(16, 3) == 0x100 * Pow(16, 2);
    assert Pow(16, 6) == 16 * Pow(16, 5) == 0x100 * Pow(16, 4);
    assert Pow(16, 8) == 16 * Pow(16, 7) == 0x100 * Pow(16, 6);
    PaddedWidth(n, 8, 16, false);
  }

  /** A padded field reads back as the number. */
  lemma FieldReads(n: word, w: nat)
    requires |Padded(n, w, 10, false)| == w
    ensures Strtoul(Padded(n, w, 10, false), 10) == Parsed(n, w)
  {
    hide Padded, Strtoul, Value;
    var t := Padded(n, w, 10, false);
    ValueOfPadded(n, w, 10, false);
    ParseDigits([], t, [], 10);
    assert [] + t + [] == t;
  }

  /** Checksum and mode as printed read back. */
  lemma TailReads(d: Date, crc: word, mode: word)
    ensures ParseTail(d, Padded(crc, 8, 16, false) + "." + Digits(mode, 10, false)) == Some(Backup(d, crc, mode))
  {
    hide Padded, Digits, Strtoul, Value;
    var c, m := Padded(crc, 8, 16, false), Digits(mode, 10, false);
    EightHexDigits(crc);
    ValueOfPadded(crc, 8, 16, false);
    ParseDigits([], c, "." + m, 16);
    assert [] + c + ("." + m) == c + "." + m;
    ValueOfDigits(mode, 10, false);
    ParseDigits([], m, [], 10);
    assert [] + m + [] == m;
    assert (c + "." + m)[9..] == m;
  }

  /** The six fields of a printed timestamp, at their positions in any text that starts with it. */
  lemma StampFields(d: Date, p: string)
    requires Printable(d) && Stamp(d) <= p
    ensures |Stamp(d)| == 15 <= |p| && p[8] == 'T'
    ensures FieldAt(p, 0, 4) == d.year && FieldAt(p, 4, 2) == d.month && FieldAt(p, 6, 2) == d.day
    ensures FieldAt(p, 9, 2) == d.hour && FieldAt(p, 11, 2) == d.minute && FieldAt(p, 13, 2) == d.second
  {
    hide Padded, Strtoul;
    FourDigits(d.year);
    TwoDigits(d.month);
    TwoDigits(d.day);
    TwoDigits(d.hour);
    TwoDigits(d.minute);
    TwoDigits(d.second);
    var s := Stamp(d);
    assert s == p[..|s|];
    FieldReads(d.year, 4);
    FieldReads(d.month, 2);
    FieldReads(d.day, 2);
    FieldReads(d.hour, 2);
    FieldReads(d.minute, 2);
    FieldReads(d.second, 2);
    assert p[0..4] == s[0..4] == Padded(d.year, 4, 10, false);
    assert p[4..6] == s[4..6] == Padded(d.month, 2, 10, false);
    assert p[6..8] == s[6..8] == Padded(d.day, 2, 10, false);
    assert p[9..11] == s[9..11] == Padded(d.hour, 2, 10, false);
    assert p[11..13] == s[11..13] == Padded(d.minute, 2, 10, false);
    assert p[13..15] == s[13..15] == Padded(d.second, 2, 10, false);
  }

  lemma SameFields(p: string, t: string)
    requires |p| >= 15 && p <= t
    ensures FieldAt(p, 0, 4) == FieldAt(t, 0, 4) && FieldAt(p, 4, 2) == FieldAt(t, 4, 2)
    ensures FieldAt(p, 6, 2) == FieldAt(t, 6, 2) && FieldAt(p, 9, 2) == FieldAt(t, 9, 2)
    ensures FieldAt(p, 11, 2) == FieldAt(t, 11, 2) && FieldAt(p, 13, 2) == FieldAt(t, 13, 2)
  {
    hide Strtoul;
    assert p[0..4] == t[0..4] && p[4..6] == t[4..6] && p[6..8] == t[6..8];
    assert p[9..11] == t[9..11] && p[11..13] == t[11..13] && p[13..15] == t[13..15];
  }

  /**
   * A name with any timestamp whose fields read as the date's, and checksum and mode as printed, is parsed as that
   * backup.
   */
  lemma NameParses(core: string, s: string, b: Backup)
    requires |s| == 15 && s[8] == 'T'
    requires FieldAt(s, 0, 4) == b.date.year && FieldAt(s, 4, 2) == b.date.month && FieldAt(s, 6, 2) == b.date.day
    requires FieldAt(s, 9, 2) == b.date.hour && FieldAt(s, 11, 2) == b.date.minute && FieldAt(s, 13, 2) == b.date.second
    ensures Parse(core, core + "." + (s + NameRest(b))) == Some(b)
  {
    hide Padded, Digits, Strtoul, FieldAt, ParseTail, WithoutExtension;
    var q := Padded(b.crc, 8, 16, false) + "." + Digits(b.mode, 10, false);
    var p, name := s + ("." + q), core + "." + (s + NameRest(b));
    assert core <= name && name[|core|..] == ("." + p) + EXTENSION;
    StripExtension("." + p);
    assert ("." + p)[1..] == p;
    SameFields(s, p);
    assert p[16..] == q;
    TailReads(b.date, b.crc, b.mode);
  }

  /** Parsing a printed name gives back the date, the checksum and the mode. */
  lemma NameRoundTrip(core: string, b: Backup)
    requires Printable(b.date)
    ensures Parse(core, BackupName(core, b)) == Some(b)
  {
    hide Padded, Digits, Stamp, FieldAt, Parse;
    StampFields(b.date, Stamp(b.date));
    NameParts(core, b);
    NameParses(core, Stamp(b.date), b);
  }

  // ---- order of names ----

  function Fold(c: char): int {
    if 'A' <= c <= 'Z' then c as int + 32 else c as int
  }

  /** `strcasecmp` */
  function StrCaseCmp(a: string, b: string): int {
    if a == [] then if b == [] then 0 else -1
    else if b == [] then 1
    else if Fold(a[0]) != Fold(b[0]) then Fold(a[0]) - Fold(b[0])
    else StrCaseCmp(a[1..], b[1..])
  }

  lemma {:induction false} CommonPrefix(p: string, a: string, b: string)
    ensures StrCaseCmp(p + a, p + b) == StrCaseCmp(a, b)
  {
    if p == [] {
      assert p + a == a && p + b == b;
    } else {
      CommonPrefix(p[1..], a, b);
      assert (p + a)[1..] == p[1..] + a && (p + b)[1..] == p[1..] + b;
    }
  }

  // ---- the other two readers ----

  /** Where the piece at the start of `s` ends. */
  function PieceEnd(s: string): (n: nat)
    ensures n <= |s| && (forall i | 0 <= i < n :: s[i] != '.') && (n < |s| ==> s[n] == '.')
    ensures s != [] && s[0] != '.' ==> n > 0
  {
    if s == [] || s[0] == '.' then 0 else 1 + PieceEnd(s[1..])
  }

  /** The non-empty pieces of a name between its periods, as `string_split` lists them. */
  function Tokens(s: string): seq<string> {
    if s == [] then []
    else if s[0] == '.' then Tokens(s[1..])
    else
      var n := PieceEnd(s);
      [s[..n]] + Tokens(s[n..])
  }

  predicate EqualNoCase(a: string, b: string) {
    StrCaseCmp(a, b) == 0
  }

  datatype BackupType = Invalid | Archive | Lib

  /** The extension of a file name, or the empty string. */
  function ExtensionOf(name: string): string {
    if LastDot(name) < 0 then [] else name[LastDot(name) + 1..]
  }

  /** `core_backup_get_backup_type` for an existing file, given the platform's library extension. */
  function BackupTypeOf(name: string, coreExt: string): BackupType {
    if ExtensionOf(name) == [] then Invalid
    else if EqualNoCase(ExtensionOf(name), "lcbk") then
      var tokens := Tokens(name);
      if |tokens| != 6 || !EqualNoCase(tokens[1], coreExt) then Invalid else Archive
    else if EqualNoCase(ExtensionOf(name), coreExt) then Lib
    else Invalid
  }

  /** `string_hex_to_unsigned` */
  function HexToUnsigned(s: string): word {
    var h := if |s| >= 2 && s[0] == '0' && (s[1] == 'x' || s[1] == 'X') then s[2..] else s;
    if h == [] || !AllDigits(h, 16) then 0 else Wrap(Strtoul(h, 16).value)
  }

  /** The archive branch of `core_backup_get_backup_crc`. */
  function ArchiveCrc(name: string, coreExt: string): Option<word> {
    if BackupTypeOf(name, coreExt) != Archive || |Tokens(name)| != 6 then None
    else
      var crc := HexToUnsigned(Tokens(name)[3]);
      if crc == 0 then None else Some(crc)
  }

  /** Position of the first period at or after `from`, or -1. */
  function DotFrom(s: string, from: nat): (i: int)
    requires from <= |s|
    ensures i == -1 || from <= i < |s|
    ensures i >= 0 ==> s[i] == '.' && forall k | from <= k < i :: s[k] != '.'
    ensures i < 0 ==> forall k | from <= k < |s| :: s[k] != '.'
    decreases |s| - from
  {
    if from == |s| then -1 else if s[from] == '.' then from else DotFrom(s, from + 1)
  }

  /** The archive branch of `core_backup_get_core_path`: the core's file name, the text up to the second period. */
  function ArchiveCoreName(name: string, coreExt: string): Option<string> {
    if BackupTypeOf(name, coreExt) != Archive then None
    else
      var first := DotFrom(name, 0);
      if first < 0 || first + 1 == |name| then None
      else
        var second := DotFrom(name, first + 1);
        if second <= 0 then None else Some(name[..second])
  }

  lemma PieceEndIs(s: string, n: nat)
    requires n <= |s| && (forall i | 0 <= i < n :: s[i] != '.') && (n < |s| ==> s[n] == '.')
    ensures PieceEnd(s) == n
  {
  }

  /** Splitting at a period splits the pieces. */
  lemma {:induction false} TokensJoin(a: string, b: string)
    ensures Tokens(a + "." + b) == Tokens(a) + Tokens(b)
    decreases |a|
  {
    var s := a + "." + b;
    if a == [] {
      assert s[1..] == b;
    } else if a[0] == '.' {
      TokensJoin(a[1..], b);
      assert s[1..] == a[1..] + "." + b;
    } else {
      var n := PieceEnd(a);
      PieceEndIs(s, n);
      TokensJoin(a[n..], b);
      assert s[n..] == a[n..] + "." + b && s[..n] == a[..n];
      assert [a[..n]] + (Tokens(a[n..]) + Tokens(b)) == ([a[..n]] + Tokens(a[n..])) + Tokens(b);
    }
  }

  /** A non-empty text without periods is its own only piece. */
  lemma OneToken(s: string)
    requires s != [] && forall i | 0 <= i < |s| :: s[i] != '.'
    ensures Tokens(s) == [s]
  {
    PieceEndIs(s, |s|);
    assert s[..|s|] == s && s[|s|..] == [];
    assert [s] + [] == [s];
  }

  lemma NoDotsInDigits(s: string)
    requires AllDigits(s, 16)
    ensures forall i | 0 <= i < |s| :: s[i] != '.'
  {
    forall i | 0 <= i < |s|
      ensures s[i] != '.'
    {
      assert IsDigit(s[i], 16);
    }
  }

  lemma PaddedNoDots(n: nat, w: nat, base: Base)
    ensures forall i | 0 <= i < |Padded(n, w, base, false)| :: Padded(n, w, base, false)[i] != '.'
  {
    hide Padded;
    ValueOfPadded(n, w, base, false);
    WiderDigits(Padded(n, w, base, false), base);
    NoDotsInDigits(Padded(n, w, base, false));
  }

  lemma StampNoDots(d: Date)
    ensures Stamp(d) != [] && forall i | 0 <= i < |Stamp(d)| :: Stamp(d)[i] != '.'
  {
    hide Padded;
    PaddedNoDots(d.year, 4, 10);
    PaddedNoDots(d.month, 2, 10);
    PaddedNoDots(d.day, 2, 10);
    PaddedNoDots(d.hour, 2, 10);
    PaddedNoDots(d.minute, 2, 10);
    PaddedNoDots(d.second, 2, 10);
  }

  /** A printed name has the core's pieces, then four of its own. */
  lemma NameTokens(core: string, b: Backup)
    ensures Tokens(BackupName(core, b))
            == Tokens(core) + [Stamp(b.date), Padded(b.crc, 8, 16, false), Digits(b.mode, 10, false), "lcbk"]
  {
    hide Padded, Digits, Stamp, Tokens;
    var ts, c, m := Stamp(b.date), Padded(b.crc, 8, 16, false), Digits(b.mode, 10, false);
    StampNoDots(b.date);
    PaddedNoDots(b.crc, 8, 16);
    ValueOfDigits(b.mode, 10, false);
    WiderDigits(m, 10);
    NoDotsInDigits(m);
    OneToken(ts);
    OneToken(c);
    OneToken(m);
    OneToken("lcbk");
    TokensJoin(m, "lcbk");
    TokensJoin(c, m + "." + "lcbk");
    TokensJoin(ts, c + "." + (m + "." + "lcbk"));
    TokensJoin(core, ts + "." + (c + "." + (m + "." + "lcbk")));
    assert BackupName(core, b) == core + "." + (ts + "." + (c + "." + (m + "." + "lcbk")));
  }

  lemma NameExtension(core: string, b: Backup)
    ensures ExtensionOf(BackupName(core, b)) == "lcbk"
  {
    var s := core + Metadata(b);
    LastDotIs(s + EXTENSION, |s|);
  }

  lemma {:induction false} EqualItself(s: string)
    ensures EqualNoCase(s, s)
  {
    if s != [] {
      EqualItself(s[1..]);
    }
  }

  /**
   * A printed name is taken for an archive exactly when the core's name has two pieces, the second being the library
   * extension.
   */
  lemma NameType(core: string, b: Backup, coreExt: string)
    ensures BackupTypeOf(BackupName(core, b), coreExt) == Archive
            <==> |Tokens(core)| == 2 && EqualNoCase(Tokens(core)[1], coreExt)
  {
    hide Tokens, EqualNoCase, ExtensionOf;
    NameTokens(core, b);
    NameExtension(core, b);
    EqualItself("lcbk");
  }

  lemma CrcReads(crc: word)
    ensures HexToUnsigned(Padded(crc, 8, 16, false)) == crc
  {
    hide Padded, Strtoul, Value;
    var c := Padded(crc, 8, 16, false);
    EightHexDigits(crc);
    ValueOfPadded(crc, 8, 16, false);
    DigitIsPlain(c[1]);
    ParseDigits([], c, [], 16);
    assert [] + c + [] == c;
  }

  /**
   * The two checksum readers agree: the split name gives the checksum the list parser gives exactly when the core's
   * name has two pieces, the second the library extension, and the checksum is not zero; otherwise it gives none.
   */
  lemma CrcReadersAgree(core: string, b: Backup, coreExt: string)
    requires Printable(b.date)
    ensures Parse(core, BackupName(core, b)) == Some(b)
    ensures ArchiveCrc(BackupName(core, b), coreExt)
            == if |Tokens(core)| == 2 && EqualNoCase(Tokens(core)[1], coreExt) && b.crc != 0 then Some(b.crc) else None
  {
    hide Tokens, EqualNoCase, BackupTypeOf, BackupName, HexToUnsigned, Parse, Padded, Digits, Stamp;
    NameRoundTrip(core, b);
    NameType(core, b, coreExt);
    NameTokens(core, b);
    CrcReads(b.crc);
  }

  /** A printed name starts with the core's name and a period. */
  lemma NameStart(core: string, b: Backup)
    ensures var name := BackupName(core, b);
            |name| > |core| + 1 && core <= name && name[|core|] == '.'
  {
    hide Padded, Digits, Stamp;
  }

  lemma DotFromIs(s: string, from: nat, i: nat)
    requires from <= i < |s| && s[i] == '.' && forall k | from <= k < i :: s[k] != '.'
    ensures DotFrom(s, from) == i
  {
  }

  /** The second period of a name that goes on after `core` and a period. */
  lemma SecondDot(core: string, name: string)
    requires |name| > |core| + 1 && core <= name && name[|core|] == '.' && DotFrom(core, 0) >= 0
    ensures DotFrom(name, 0) == DotFrom(core, 0)
    ensures var inCore := DotFrom(core, DotFrom(core, 0) + 1);
            DotFrom(name, DotFrom(core, 0) + 1) == if inCore < 0 then |core| else inCore
  {
    var first := DotFrom(core, 0);
    var inCore := DotFrom(core, first + 1);
    assert forall k | 0 <= k < |core| :: name[k] == core[k];
    DotFromIs(name, 0, first);
    DotFromIs(name, first + 1, if inCore < 0 then |core| else inCore);
  }

  lemma NoTokens()
    ensures Tokens([]) == []
  {
  }

  /** A name of two pieces has a period. */
  lemma TwoPiecesDot(core: string)
    requires |Tokens(core)| == 2
    ensures DotFrom(core, 0) >= 0
  {
    if core == [] {
      NoTokens();
    } else if DotFrom(core, 0) < 0 {
      OneToken(core);
    }
  }

  /**
   * The path reader recovers the core's file name exactly when that has two pieces, the second the library extension,
   * and a single period.
   */
  lemma CoreNameRecovered(core: string, b: Backup, coreExt: string)
    ensures ArchiveCoreName(BackupName(core, b), coreExt) == Some(core)
            <==> && |Tokens(core)| == 2 && EqualNoCase(Tokens(core)[1], coreExt)
                 && DotFrom(core, 0) >= 0 && DotFrom(core, DotFrom(core, 0) + 1) < 0
  {
    hide Tokens, EqualNoCase, BackupTypeOf, BackupName, DotFrom;
    NameType(core, b, coreExt);
    if |Tokens(core)| == 2 && EqualNoCase(Tokens(core)[1], coreExt) {
      NameStart(core, b);
      TwoPiecesDot(core);
      SecondDot(core, BackupName(core, b));
      var name := BackupName(core, b);
      assert name[..|core|] == core;
      var inCore := DotFrom(core, DotFrom(core, 0) + 1);
      assert inCore >= 0 ==> |name[..inCore]| < |core|;
    }
  }

  lemma ZeroChecksumUnread(core: string, b: Backup, coreExt: string)
    requires Printable(b.date) && b.crc == 0
    ensures Parse(core, BackupName(core, b)) == Some(b) && ArchiveCrc(BackupName(core, b), coreExt) == None
  {
    hide Tokens, EqualNoCase, BackupName, Parse, ArchiveCrc;
    CrcReadersAgree(core, b, coreExt);
  }

  lemma TwoPieces()
    ensures Tokens("a.so.") == ["a", "so"]
  {
    assert "a.so." == "a" + "." + "so.";
    TokensJoin("a", "so.");
    assert "so." == "so" + "." + "";
    TokensJoin("so", "");
    OneToken("a");
    OneToken("so");
    NoTokens();
    assert ["so"] + [] == ["so"];
  }

  /** "a.so." has two pieces and counts as an archive; the name is cut at its second period. */
  lemma SecondPeriodCutsName(b: Backup)
    ensures BackupTypeOf(BackupName("a.so.", b), "so") == Archive
    ensures ArchiveCoreName(BackupName("a.so.", b), "so") == Some("a.so")
  {
    hide BackupName, BackupTypeOf, EqualNoCase, Padded, Digits, Stamp;
    var core := "a.so.";
    TwoPieces();
    EqualItself("so");
    NameType(core, b, "so");
    NameStart(core, b);
    assert core[1] == '.' && core[4] == '.';
    DotFromIs(core, 0, 1);
    DotFromIs(core, 2, 4);
    SecondDot(core, BackupName(core, b));
    assert BackupName(core, b)[..4] == BackupName(core, b)[..5][..4] == core[..4] == "a.so";
  }

  /** The archive branch of `core_backup_get_core_path` with its directory, into a buffer of `len` characters. */
  function ArchiveCorePath(dir: string, name: string, coreExt: string, len: nat): Option<string> {
    var core := ArchiveCoreName(name, coreExt);
    if dir == [] || core.None? || |dir| + |core.value| + 1 >= len then None else Some(dir + "/" + core.value)
  }

  /**
   * The core's own path comes back exactly when its file name is recovered, the directory is given, and the path
   * fits.
   */
  lemma CorePathRecovered(dir: string, core: string, b: Backup, coreExt: string, len: nat)
    ensures ArchiveCorePath(dir, BackupName(core, b), coreExt, len) == Some(dir + "/" + core)
            <==> && dir != [] && |dir + "/" + core| < len
                 && |Tokens(core)| == 2 && EqualNoCase(Tokens(core)[1], coreExt)
                 && DotFrom(core, 0) >= 0 && DotFrom(core, DotFrom(core, 0) + 1) < 0
  {
    hide Tokens, EqualNoCase, ArchiveCoreName, BackupName, DotFrom;
    CoreNameRecovered(core, b, coreExt);
    var found := ArchiveCoreName(BackupName(core, b), coreExt);
    if found.Some? && dir + "/" + found.value == dir + "/" + core {
      assert found.value == (dir + "/" + found.value)[|dir| + 1..] == (dir + "/" + core)[|dir| + 1..] == core;
    }
  }
}
