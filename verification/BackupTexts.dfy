/** Core backups letter by letter: which names are accepted, and what the readers make of any name. */
module BackupTexts {
  import opened Words
  import opened Numerals
  import opened Wrappers
  import opened BackupNames
  import opened BackupList

  // ---- the printed name ----

  lemma SmallYear()
    ensures Padded(2024, 4, 10, false) == "2024" && Digits(1, 10, false) == "1"
  {
    assert Digits(20, 10, false) == "2" + "0";
    assert Digits(202, 10, false) == Digits(20, 10, false) + "2";
    assert Digits(2024, 10, false) == Digits(202, 10, false) + "4";
  }

  lemma SmallNumber(n: nat)
    requires n < 10
    ensures Padded(n, 2, 10, false) == "0" + ["0123456789"[n]]
  {
    assert Zeros(1) == "0";
  }

  lemma SmallNumbers()
    ensures Padded(2, 2, 10, false) == "02" && Padded(3, 2, 10, false) == "03" && Padded(4, 2, 10, false) == "04"
    ensures Padded(5, 2, 10, false) == "05" && Padded(6, 2, 10, false) == "06"
  {
    hide Padded;
    SmallNumber(2);
    SmallNumber(3);
    SmallNumber(4);
    SmallNumber(5);
    SmallNumber(6);
  }

  lemma SmallChecksum()
    ensures Padded(0x1A2B, 8, 16, false) == "00001a2b"
  {
    assert Digits(0x1A, 16, false) == "1" + "a";
    assert Digits(0x1A2, 16, false) == Digits(0x1A, 16, false) + "2";
    assert Digits(0x1A2B, 16, false) == Digits(0x1A2, 16, false) + "b";
    assert Zeros(4) == "0000";
  }

  /** A whole name: core, time, checksum, mode and extension. */
  lemma NameText()
    ensures BackupName("a.so", Backup(Date(2024, 2, 3, 4, 5, 6), 0x1A2B, 1)) == "a.so.20240203T040506.00001a2b.1.lcbk"
  {
    hide Padded, Digits;
    SmallYear();
    SmallNumbers();
    SmallChecksum();
    var t := "2024" + "02" + "03" + "T" + "04" + "05" + "06";
    assert Stamp(Date(2024, 2, 3, 4, 5, 6)) == t && t == "20240203T040506";
    hide Stamp;
    assert "." + t + "." + "00001a2b" + "." + "1" == ".20240203T040506.00001a2b.1";
  }

  // ---- the list parser on any name ----

  lemma LastDotAt(s: string, ext: string)
    requires '.' !in ext
    ensures LastDot(s + "." + ext) == |s| && WithoutExtension(s + "." + ext) == s
  {
    hide LastDot;
    var t := s + "." + ext;
    assert t[|s|] == '.' && t[|s| + 1..] == ext && t[..|s|] == s;
    forall k | |s| < k < |t|
      ensures t[k] != '.'
    {
      assert t[k] == ext[k - |s| - 1];
    }
    LastDotIs(t, |s|);
  }

  /** Checksum and mode. */
  predicate TailMeaning(q: string, b: Backup) {
    && Strtoul(q, 16).end == 8 && |q| > 8 && q[8] == '.' && b.crc == Strtoul(q, 16).value % 0x1_0000_0000
    && 0 < Strtoul(q[9..], 10).end == |q| - 9 && b.mode == Strtoul(q[9..], 10).value % 0x1_0000_0000
  }

  lemma MetadataMeaning(p: string, b: Backup)
    ensures ParseMetadata(p) == Some(b)
            <==> && |p| >= 16 && p[8] == 'T' && p[15] == '.'
                 && FieldAt(p, 0, 4) == b.date.year && FieldAt(p, 4, 2) == b.date.month
                 && FieldAt(p, 6, 2) == b.date.day && FieldAt(p, 9, 2) == b.date.hour
                 && FieldAt(p, 11, 2) == b.date.minute && FieldAt(p, 13, 2) == b.date.second
                 && TailMeaning(p[16..], b)
  {
    hide Strtoul, FieldAt;
  }

  /**
   * Which backup a name of the form core, period, metadata, period, extension is accepted as: the metadata starts with
   * six fields of 4, 2, 2, then a T, 2, 2 and 2 characters, each read to its end as a decimal; a period; a checksum
   * that is read as hexadecimal for exactly eight characters; a period; and a mode that is read to the end.
   */
  lemma ParseMeaning(core: string, p: string, ext: string, b: Backup)
    requires '.' !in ext
    ensures Parse(core, core + "." + p + "." + ext) == Some(b)
            <==> && |p| >= 16 && p[8] == 'T' && p[15] == '.'
                 && Strtoul(p[0..4], 10).end == 4 && b.date.year == Strtoul(p[0..4], 10).value % 0x1_0000_0000
                 && Strtoul(p[4..6], 10).end == 2 && b.date.month == Strtoul(p[4..6], 10).value % 0x1_0000_0000
                 && Strtoul(p[6..8], 10).end == 2 && b.date.day == Strtoul(p[6..8], 10).value % 0x1_0000_0000
                 && Strtoul(p[9..11], 10).end == 2 && b.date.hour == Strtoul(p[9..11], 10).value % 0x1_0000_0000
                 && Strtoul(p[11..13], 10).end == 2 && b.date.minute == Strtoul(p[11..13], 10).value % 0x1_0000_0000
                 && Strtoul(p[13..15], 10).end == 2 && b.date.second == Strtoul(p[13..15], 10).value % 0x1_0000_0000
                 && TailMeaning(p[16..], b)
  {
    hide Strtoul, LastDot, ParseMetadata;
    var name, s := core + "." + p + "." + ext, "." + p;
    assert core <= name && name[|core|..] == s + "." + ext;
    LastDotAt(s, ext);
    assert s[1..] == p;
    MetadataMeaning(p, b);
  }

  lemma CutAtDot(tail: string, i: nat)
    requires 0 < i < |tail| && tail[0] == '.' && tail[i] == '.' && forall k | i < k < |tail| :: tail[k] != '.'
    ensures tail == "." + tail[1..i] + "." + tail[i + 1..] && '.' !in tail[i + 1..]
  {
    var ext := tail[i + 1..];
    forall k | 0 <= k < |ext|
      ensures ext[k] != '.'
    {
      assert ext[k] == tail[i + 1 + k];
    }
  }

  lemma StartsWithDot(core: string, name: string)
    requires Parse(core, name).Some?
    ensures core <= name && LastDot(name[|core|..]) > 0 && name[|core|..][0] == '.'
  {
    hide ParseMetadata;
  }

  /** Only names of that form are accepted. */
  lemma ParsedForm(core: string, name: string) returns (p: string, ext: string)
    requires Parse(core, name).Some?
    ensures name == core + "." + p + "." + ext && '.' !in ext
  {
    hide Parse, LastDot;
    StartsWithDot(core, name);
    var tail := name[|core|..];
    var i := LastDot(tail);
    CutAtDot(tail, i);
    p, ext := tail[1..i], tail[i + 1..];
    assert name == core + tail;
    assert core + ("." + p + "." + ext) == core + "." + p + "." + ext;
  }

  // ---- the other readers on any name ----

  /** The same letter, or the same but for its case. */
  predicate SameLetter(a: char, b: char) {
    || a == b
    || ('A' <= a <= 'Z' && b as int == a as int + 32)
    || ('A' <= b <= 'Z' && a as int == b as int + 32)
  }

  /** Texts are equal without regard to case exactly when they are letter by letter. */
  lemma {:induction false} EqualNoCaseExact(a: string, b: string)
    ensures EqualNoCase(a, b) <==> |a| == |b| && forall i | 0 <= i < |a| :: SameLetter(a[i], b[i])
  {
    if a != [] && b != [] {
      EqualNoCaseExact(a[1..], b[1..]);
      assert a == [a[0]] + a[1..] && b == [b[0]] + b[1..];
    }
  }

  /** Names that differ sort by the first letters that do, compared as lower-case letters. */
  lemma {:induction false} CaseOrder(p: string, q: string, a: char, b: char, x: string, y: string)
    requires EqualNoCase(p, q) && !SameLetter(a, b)
    ensures var low := (c: char) => if 'A' <= c <= 'Z' then c as int + 32 else c as int;
            && (StrCaseCmp(p + [a] + x, q + [b] + y) < 0 <==> low(a) < low(b))
            && (StrCaseCmp(p + [a] + x, q + [b] + y) > 0 <==> low(a) > low(b))
  {
    if p == [] {
      assert q == [];
      assert [] + [a] + x == [a] + x && [] + [b] + y == [b] + y;
    } else {
      assert q != [];
      CaseOrder(p[1..], q[1..], a, b, x, y);
      assert (p + [a] + x)[1..] == p[1..] + [a] + x && (q + [b] + y)[1..] == q[1..] + [b] + y;
    }
  }

  /** A text sorts before its continuations. */
  lemma {:induction false} PrefixFirst(p: string, x: string)
    ensures x != [] ==> StrCaseCmp(p, p + x) < 0
  {
    if p != [] {
      PrefixFirst(p[1..], x);
      assert (p + x)[1..] == p[1..] + x;
    } else {
      assert [] + x == x;
    }
  }

  /** What kind of backup a name denotes, by its extension and its pieces. */
  lemma TypeMeaning(stem: string, ext: string, coreExt: string)
    requires '.' !in ext
    ensures var name := stem + "." + ext;
            BackupTypeOf(name, coreExt)
            == if ext == [] then Invalid
               else if EqualNoCase(ext, "lcbk") then
                 (if |Tokens(name)| == 6 && EqualNoCase(Tokens(name)[1], coreExt) then Archive else Invalid)
               else if EqualNoCase(ext, coreExt) then Lib else Invalid
  {
    hide Tokens, EqualNoCase, LastDot;
    LastDotAt(stem, ext);
    assert (stem + "." + ext)[|stem| + 1..] == ext;
  }

  /** A name without a period is no backup. */
  lemma NoPeriodInvalid(name: string, coreExt: string)
    requires '.' !in name
    ensures BackupTypeOf(name, coreExt) == Invalid
  {
    hide Tokens, EqualNoCase;
  }

  /** The path reader takes the text up to the second period of an archive's name, and nothing of any other name. */
  lemma CoreNameMeaning(a: string, b: string, rest: string, coreExt: string)
    requires '.' !in a && '.' !in b
    ensures var name := a + "." + b + "." + rest;
            ArchiveCoreName(name, coreExt)
            == if BackupTypeOf(name, coreExt) == Archive then Some(a + "." + b) else None
  {
    hide BackupTypeOf;
    var name := a + "." + b + "." + rest;
    forall k | 0 <= k < |a|
      ensures name[k] != '.'
    {
      assert name[k] == a[k];
    }
    forall k | |a| < k < |a| + 1 + |b|
      ensures name[k] != '.'
    {
      assert name[k] == b[k - |a| - 1];
    }
    DotFromIs(name, 0, |a|);
    DotFromIs(name, |a| + 1, |a| + 1 + |b|);
    assert name[..|a| + 1 + |b|] == a + "." + b;
  }

  lemma AfterPrefix(prefix: string, ds: string)
    requires prefix == "" || prefix == "0x" || prefix == "0X"
    requires prefix == "" && |ds| >= 2 && ds[0] == '0' ==> ds[1] != 'x' && ds[1] != 'X'
    ensures HexToUnsigned(prefix + ds)
            == if ds == [] || !AllDigits(ds, 16) then 0 else Strtoul(ds, 16).value % 0x1_0000_0000
  {
    hide Strtoul, AllDigits;
    if prefix == "" {
      assert prefix + ds == ds;
    } else {
      assert (prefix + ds)[2..] == ds;
    }
  }

  lemma HexDigitsRead(ds: string)
    requires ds != [] && AllDigits(ds, 16)
    ensures Strtoul(ds, 16).value
            == if Value(ds, 16) > 0xFFFF_FFFF_FFFF_FFFF then 0xFFFF_FFFF_FFFF_FFFF else Value(ds, 16)
  {
    hide Strtoul, Value, AllDigits;
    StrtoulExact([], "", "", ds, [], 16, 16);
    assert [] + "" + "" + ds + [] == ds;
  }

  /** A checksum text: hexadecimal digits, with or without 0x, up to 64 bits; any other text reads as zero. */
  lemma ChecksumReads(prefix: string, ds: string)
    requires prefix == "" || prefix == "0x" || prefix == "0X"
    requires prefix == "" && |ds| >= 2 && ds[0] == '0' ==> ds[1] != 'x' && ds[1] != 'X'
    ensures HexToUnsigned(prefix + ds)
            == if ds == [] || !AllDigits(ds, 16) then 0
               else if Value(ds, 16) > 0xFFFF_FFFF_FFFF_FFFF then 0xFFFF_FFFF else Value(ds, 16) % 0x1_0000_0000
  {
    hide Strtoul, Value, AllDigits, HexToUnsigned;
    AfterPrefix(prefix, ds);
    if ds != [] && AllDigits(ds, 16) {
      HexDigitsRead(ds);
    }
  }

  // ---- the list ----

  /** The entry of one file, for a core with a name. */
  lemma OneFile(core: string, dir: string, name: string)
    requires NoSlash(name)
    ensures var path := dir + "/" + name;
            EntriesOf(core, [path])
            == if core != [] && Parse(core, name).Some? then [Entry(path, Parse(core, name).value)] else []
  {
    hide Parse;
    var path := dir + "/" + name;
    BaseNameOf(dir, name);
    assert [path][..0] == [];
  }

  /** Entries are listed in the order of their files. */
  lemma {:induction false} EntriesInOrder(core: string, a: seq<string>, b: seq<string>)
    ensures EntriesOf(core, a + b) == EntriesOf(core, a) + EntriesOf(core, b)
  {
    hide EntryOf;
    if b == [] {
      assert a + b == a;
    } else {
      var front, last := b[..|b| - 1], b[|b| - 1];
      EntriesInOrder(core, a, front);
      assert (a + b)[..|a + b| - 1] == a + front;
    }
  }
}
