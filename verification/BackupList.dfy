/** The list of a core's backups: entries parsed from the sorted directory listing. */
module BackupList {
  import opened Words
  import opened Numerals
  import opened Wrappers
  import opened BackupNames
  import opened StampOrder

  datatype Entry = Entry(path: string, backup: Backup)

  const NO_ENTRY := Entry([], Backup(Date(0, 0, 0, 0, 0, 0), 0, 0))

  /** The text after the last slash of a path. */
  function BaseName(path: string): string {
    if path == [] || path[|path| - 1] == '/' then []
    else BaseName(path[..|path| - 1]) + [path[|path| - 1]]
  }

  lemma {:induction false} BaseNameOf(dir: string, name: string)
    requires forall i | 0 <= i < |name| :: name[i] != '/'
    ensures BaseName(dir + "/" + name) == name
  {
    var path := dir + "/" + name;
    if name != [] {
      var front := name[..|name| - 1];
      BaseNameOf(dir, front);
      assert path[..|path| - 1] == dir + "/" + front;
    }
  }

  /** The entry a file gives, if its name is valid for the core. */
  function EntryOf(core: string, path: string): Option<Entry> {
    if core == [] then None
    else
      var b := Parse(core, BaseName(path));
      if b.None? then None else Some(Entry(path, b.value))
  }

  /** The valid entries of a listing, in listing order. */
  function EntriesOf(core: string, files: seq<string>): (r: seq<Entry>)
    ensures |r| <= |files|
  {
    if files == [] then []
    else
      var e := EntryOf(core, files[|files| - 1]);
      EntriesOf(core, files[..|files| - 1]) + (if e.None? then [] else [e.value])
  }

  /** A number field of the name: its value, and whether `strtoul` stopped at its end. */
  method ReadField(p: string, at: nat, w: nat) returns (v: word, ok: bool)
    requires at + w <= |p|
    ensures FieldAt(p, at, w) == if ok then v else -1
  {
    hide Strtoul;
    var r := Strtoul(p[at..at + w], 10);
    v := Wrap(r.value);
    ok := r.end == w;
  }

  lemma NoName(core: string)
    ensures core != [] ==> EntryOf(core, []) == None
  {
    hide WithoutExtension, ParseMetadata;
  }

  class List {
    const entries: array<Entry>
    var size: nat

    ghost predicate Valid()
      reads this
    {
      size <= entries.Length
    }

    constructor (capacity: nat)
      ensures Valid() && size == 0 && entries.Length == capacity && fresh(entries)
    {
      entries := new Entry[capacity](_ => NO_ENTRY);
      size := 0;
    }

    /** The entries of the list. */
    ghost function Contents(): seq<Entry>
      reads this, entries
      requires Valid()
    {
      entries[..size]
    }

    /** Puts a date field into the entry being filled. */
    method SetDate(d: Date)
      requires size < entries.Length
      modifies entries
      ensures entries[..size] == old(entries[..size]) && entries[size].backup.date == d
    {
      entries[size] := entries[size].(backup := entries[size].backup.(date := d));
    }

    /** Reads the timestamp into the entry being filled, field by field. */
    method FillDate(p: string) returns (ok: bool)
      requires size < entries.Length && |p| >= 15
      modifies entries
      ensures entries[..size] == old(entries[..size])
      ensures ok <==> FieldAt(p, 0, 4) >= 0 && FieldAt(p, 4, 2) >= 0 && FieldAt(p, 6, 2) >= 0
                      && FieldAt(p, 9, 2) >= 0 && FieldAt(p, 11, 2) >= 0 && FieldAt(p, 13, 2) >= 0
      ensures ok ==> entries[size].backup.date == Date(FieldAt(p, 0, 4), FieldAt(p, 4, 2), FieldAt(p, 6, 2),
                                                       FieldAt(p, 9, 2), FieldAt(p, 11, 2), FieldAt(p, 13, 2))
    {
      hide FieldAt;
      var v;
      var d := entries[size].backup.date;
      v, ok := ReadField(p, 0, 4);
      d := d.(year := v);
      SetDate(d);
      if !ok { return; }
      v, ok := ReadField(p, 4, 2);
      d := d.(month := v);
      SetDate(d);
      if !ok { return; }
      v, ok := ReadField(p, 6, 2);
      d := d.(day := v);
      SetDate(d);
      if !ok { return; }
      v, ok := ReadField(p, 9, 2);
      d := d.(hour := v);
      SetDate(d);
      if !ok { return; }
      v, ok := ReadField(p, 11, 2);
      d := d.(minute := v);
      SetDate(d);
      if !ok { return; }
      v, ok := ReadField(p, 13, 2);
      d := d.(second := v);
      SetDate(d);
    }

    /**
     * `core_backup_add_entry`: fills the next free entry as it parses, and counts it only when the whole name is
     * valid.
     */
    method AddEntry(core: string, path: string) returns (added: bool)
      requires Valid()
      modifies entries, this`size
      ensures Valid()
      ensures added == (old(size) < entries.Length && EntryOf(core, path).Some?)
      ensures Contents() == old(Contents()) + if added then [EntryOf(core, path).value] else []
    {
      hide FieldAt, Strtoul, WithoutExtension;
      added := false;
      if core == [] || path == [] || size >= entries.Length {
        NoName(core);
        return;
      }
      var name := BaseName(path);
      if name == [] || !(core <= name) {
        return;
      }
      var s := WithoutExtension(name[|core|..]);
      if s == [] || s[0] != '.' {
        return;
      }
      var p := s[1..];
      if |p| < 15 || p[8] != 'T' {
        return;
      }
      var ok := FillDate(p);
      if !ok || |p| == 15 || p[15] != '.' {
        return;
      }
      var q := p[16..];
      var crc := Strtoul(q, 16);
      if crc.end != 8 || |q| == 8 || q[8] != '.' {
        return;
      }
      var mode := Strtoul(q[9..], 10);
      if mode.end == 0 || mode.end != |q[9..]| {
        return;
      }
      entries[size] := entries[size].(backup := entries[size].backup.(crc := Wrap(crc.value),
          mode := Wrap(mode.value)));
      entries[size] := entries[size].(path := path);
      size := size + 1;
      added := true;
    }
  }

  /**
   * `core_backup_list_init` on a sorted directory listing: exactly the valid entries, in listing order, or no list
   * when there are none.
   */
  method ListInit(core: string, files: seq<string>) returns (list: List?)
    ensures list == null <==> EntriesOf(core, files) == []
    ensures list != null ==> fresh(list) && list.Valid() && list.entries.Length == |files|
    ensures list != null ==> list.Contents() == EntriesOf(core, files)
  {
    hide EntryOf;
    if |files| < 1 {
      return null;
    }
    var l := new List(|files|);
    var i := 0;
    while i < |files|
      invariant 0 <= i <= |files| && l.Valid() && l.entries.Length == |files| && fresh(l.entries)
      invariant l.Contents() == EntriesOf(core, files[..i]) && l.size <= i
    {
      assert files[..i + 1][..i] == files[..i];
      var added := l.AddEntry(core, files[i]);
      i := i + 1;
    }
    assert files[..i] == files;
    list := if l.size != 0 then l else null;
  }

  // ---- time order ----

  /** Listing order of `dir_list_sort` for files. */
  predicate SortedListing(files: seq<string>) {
    forall i, k | 0 <= i < k < |files| :: StrCaseCmp(files[i], files[k]) <= 0
  }

  /** The text after the core's name and one period. */
  function StampText(core: string, path: string): string {
    var name := BaseName(path);
    if |name| <= |core| then [] else name[|core| + 1..]
  }

  /** Every valid file of the listing lies in `dir` and has an orderly timestamp, as printed names have. */
  predicate OrderlyListing(dir: string, core: string, files: seq<string>) {
    forall i | 0 <= i < |files| && EntryOf(core, files[i]).Some? ::
      && files[i] == dir + BaseName(files[i])
      && |StampText(core, files[i])| >= 15 && Orderly(StampText(core, files[i]), 0)
  }

  /** The date of parsed metadata is made of its six fields. */
  lemma MetadataDate(p: string)
    requires ParseMetadata(p).Some?
    ensures |p| >= 15 && p[8] == 'T'
    ensures FieldAt(p, 0, 4) >= 0 && FieldAt(p, 4, 2) >= 0 && FieldAt(p, 6, 2) >= 0
    ensures FieldAt(p, 9, 2) >= 0 && FieldAt(p, 11, 2) >= 0 && FieldAt(p, 13, 2) >= 0
    ensures ParseMetadata(p).value.date == Date(FieldAt(p, 0, 4), FieldAt(p, 4, 2), FieldAt(p, 6, 2),
                                                FieldAt(p, 9, 2), FieldAt(p, 11, 2), FieldAt(p, 13, 2))
  {
    hide FieldAt, Strtoul;
  }

  /** Parsed metadata starts with an accepted timestamp, which gives its date. */
  lemma MetadataAccepted(p: string, t: string)
    requires ParseMetadata(p).Some? && p <= t
    ensures Accepted(t) && ParseMetadata(p).value.date == DateOf(t)
  {
    hide FieldAt, ParseMetadata;
    MetadataDate(p);
    SameFields(p, t);
    assert t[8] == p[8];
  }

  /** A valid entry's date is the one its timestamp text denotes. */
  lemma EntryDate(core: string, path: string)
    requires EntryOf(core, path).Some?
    ensures core + "." <= BaseName(path) && BaseName(path) == core + "." + StampText(core, path)
    ensures Accepted(StampText(core, path))
    ensures EntryOf(core, path).value.backup.date == DateOf(StampText(core, path))
  {
    hide ParseMetadata, LastDot, BaseName, Accepted, DateOf;
    var tail := BaseName(path)[|core|..];
    var s := WithoutExtension(tail);
    assert s <= tail && tail[0] == '.' && StampText(core, path) == tail[1..] && s[1..] <= tail[1..];
    MetadataAccepted(s[1..], tail[1..]);
  }

  /** Two valid files sort as their dates, as far as they differ. */
  predicate TimeOrdered(core: string, a: string, b: string)
    requires EntryOf(core, a).Some? && EntryOf(core, b).Some?
  {
    && (StrCaseCmp(a, b) <= 0 ==> !Earlier(EntryOf(core, b).value.backup.date, EntryOf(core, a).value.backup.date))
    && (StrCaseCmp(b, a) <= 0 ==> !Earlier(EntryOf(core, a).value.backup.date, EntryOf(core, b).value.backup.date))
  }

  /** Files of one directory and core sort as their timestamps. */
  lemma PathsSortAsStamps(dir: string, core: string, a: string, b: string)
    requires EntryOf(core, a).Some? && EntryOf(core, b).Some?
    requires a == dir + BaseName(a) && b == dir + BaseName(b)
    ensures Accepted(StampText(core, a)) && Accepted(StampText(core, b))
    ensures TimeOrdered(core, a, b) <==> Ordered(StampText(core, a), StampText(core, b))
    ensures StrCaseCmp(a, b) == StrCaseCmp(StampText(core, a), StampText(core, b))
  {
    hide EntryOf, StrCaseCmp, DateOf, Accepted, StampText, BaseName, Earlier;
    EntryDate(core, a);
    EntryDate(core, b);
    var x, y := StampText(core, a), StampText(core, b);
    CommonPrefix(dir + (core + "."), x, y);
    CommonPrefix(dir + (core + "."), y, x);
    assert a == dir + (core + ".") + x && b == dir + (core + ".") + y;
  }

  /** Of two valid files of an orderly sorted listing the later one is not the older one. */
  lemma PairInOrder(dir: string, core: string, a: string, b: string)
    requires EntryOf(core, a).Some? && EntryOf(core, b).Some?
    requires a == dir + BaseName(a) && b == dir + BaseName(b)
    requires |StampText(core, a)| >= 15 && Orderly(StampText(core, a), 0)
    requires |StampText(core, b)| >= 15 && Orderly(StampText(core, b), 0)
    requires StrCaseCmp(a, b) <= 0
    ensures !Earlier(EntryOf(core, b).value.backup.date, EntryOf(core, a).value.backup.date)
  {
    hide EntryOf, StrCaseCmp, DateOf, Accepted, Orderly, StampText, BaseName, Earlier, Ordered;
    PathsSortAsStamps(dir, core, a, b);
    OrderlyTexts(StampText(core, a), StampText(core, b));
  }

  lemma {:induction false} EntriesComeFromFiles(core: string, files: seq<string>, e: Entry)
    requires e in EntriesOf(core, files)
    ensures exists i | 0 <= i < |files| :: EntryOf(core, files[i]) == Some(e)
  {
    hide EntryOf;
    var n := |files| - 1;
    if EntryOf(core, files[n]) != Some(e) {
      EntriesComeFromFiles(core, files[..n], e);
      var i :| 0 <= i < n && EntryOf(core, files[..n][i]) == Some(e);
      assert files[i] == files[..n][i];
    }
  }

  /**
   * Alphabetical order is time order: a list built from a sorted listing of orderly names runs from the oldest backup
   * to the newest.
   */
  lemma {:induction false} ListInTimeOrder(dir: string, core: string, files: seq<string>)
    requires SortedListing(files) && OrderlyListing(dir, core, files)
    ensures forall i, k | 0 <= i < k < |EntriesOf(core, files)| ::
              !Earlier(EntriesOf(core, files)[k].backup.date, EntriesOf(core, files)[i].backup.date)
  {
    hide EntryOf, Earlier, Orderly, StampText, BaseName, StrCaseCmp;
    if files != [] {
      var n := |files| - 1;
      var front, last := files[..n], files[n];
      assert forall i | 0 <= i < n :: front[i] == files[i];
      ListInTimeOrder(dir, core, front);
      var entries := EntriesOf(core, front);
      if EntryOf(core, last).Some? {
        forall i | 0 <= i < |entries|
          ensures !Earlier(EntryOf(core, last).value.backup.date, entries[i].backup.date)
        {
          EntriesComeFromFiles(core, front, entries[i]);
          var j :| 0 <= j < n && EntryOf(core, front[j]) == Some(entries[i]);
          PairInOrder(dir, core, files[j], last);
        }
      }
    }
  }

  // ---- which names keep time order ----

  predicate NoSlash(s: string) {
    forall i | 0 <= i < |s| :: s[i] != '/'
  }

  lemma NoSlashJoin(a: string, b: string)
    requires NoSlash(a) && NoSlash(b)
    ensures NoSlash(a + b)
  {
  }

  lemma RestNoSlash(b: Backup)
    ensures NoSlash(NameRest(b))
  {
    hide Padded, Digits;
    PaddedNoSlash(b.crc, 8, 16);
    ValueOfDigits(b.mode, 10, false);
    NoSlashInDigits(Digits(b.mode, 10, false), 10);
  }

  lemma StampNoSlash(d: Date)
    ensures NoSlash(Stamp(d))
  {
    hide Padded;
    PaddedNoSlash(d.year, 4, 10);
    PaddedNoSlash(d.month, 2, 10);
    PaddedNoSlash(d.day, 2, 10);
    PaddedNoSlash(d.hour, 2, 10);
    PaddedNoSlash(d.minute, 2, 10);
    PaddedNoSlash(d.second, 2, 10);
  }

  /** The path of a file whose name is `core`, a period, and a timestamp with the rest of a printed name. */
  function PathOf(dir: string, core: string, s: string, b: Backup): string {
    dir + "/" + (core + "." + (s + NameRest(b)))
  }

  lemma PathParts(dir: string, core: string, s: string, b: Backup)
    requires NoSlash(core) && NoSlash(s)
    ensures BaseName(PathOf(dir, core, s, b)) == core + "." + (s + NameRest(b))
    ensures PathOf(dir, core, s, b) == dir + "/" + BaseName(PathOf(dir, core, s, b))
    ensures StampText(core, PathOf(dir, core, s, b)) == s + NameRest(b)
  {
    hide NameRest, BaseName;
    RestNoSlash(b);
    NoSlashJoin(s, NameRest(b));
    NoSlashJoin(core, ".");
    NoSlashJoin(core + ".", s + NameRest(b));
    BaseNameOf(dir, core + "." + (s + NameRest(b)));
  }

  /** Every printed file is listed as its backup, with an orderly timestamp. */
  lemma PrintedEntry(dir: string, core: string, b: Backup)
    requires core != [] && NoSlash(core) && Printable(b.date)
    ensures var path := PathOf(dir, core, Stamp(b.date), b);
            && path == dir + "/" + BackupName(core, b) && EntryOf(core, path) == Some(Entry(path, b))
            && |StampText(core, path)| >= 15 && Orderly(StampText(core, path), 0)
  {
    hide BaseName, StampText, Stamp, NameRest, Parse, Orderly;
    StampNoSlash(b.date);
    PathParts(dir, core, Stamp(b.date), b);
    NameParts(core, b);
    NameRoundTrip(core, b);
    PrintedOrderly(b.date, Stamp(b.date) + NameRest(b));
  }

  lemma AcceptedLength(p: string)
    requires Accepted(p)
    ensures |p| >= 15
  {
  }

  lemma SameRest(a: Backup, b: Backup)
    requires a.crc == b.crc && a.mode == b.mode
    ensures NameRest(a) == NameRest(b)
  {
  }

  lemma NotOrdered(p: string, q: string)
    requires Accepted(p) && Accepted(q) && StrCaseCmp(p, q) < 0 && Earlier(DateOf(q), DateOf(p))
    ensures !Ordered(p, q)
  {
  }

  /** A valid file against a printed one. */
  lemma AgainstPrinted(dir: string, core: string, path: string, b: Backup)
    requires core != [] && NoSlash(core) && Printable(b.date)
    requires EntryOf(core, path).Some? && path == dir + "/" + BaseName(path)
    ensures var printed := PathOf(dir, core, Stamp(b.date), b);
            && EntryOf(core, printed).Some? && Accepted(StampText(core, path))
            && Accepted(Stamp(b.date) + NameRest(b))
            && (TimeOrdered(core, path, printed) <==> Ordered(StampText(core, path), Stamp(b.date) + NameRest(b)))
            && (Orderly(StampText(core, path), 0) ==> TimeOrdered(core, path, printed))
  {
    hide EntryOf, StrCaseCmp, DateOf, Accepted, Orderly, StampText, BaseName, Earlier, Ordered, TimeOrdered, PathOf,
        Stamp, NameRest;
    PrintedEntry(dir, core, b);
    StampNoSlash(b.date);
    PathParts(dir, core, Stamp(b.date), b);
    var printed := PathOf(dir, core, Stamp(b.date), b);
    PathsSortAsStamps(dir + "/", core, path, printed);
    AcceptedLength(StampText(core, path));
    if Orderly(StampText(core, path), 0) {
      OrderlyTexts(StampText(core, path), StampText(core, printed));
    }
  }

  /**
   * A valid file sorts as its date against every printed one exactly when its timestamp is orderly: digits only, or
   * digits up to a field from which on everything is zero.
   */
  lemma FileOrderExact(dir: string, core: string, path: string)
    requires core != [] && NoSlash(core)
    requires EntryOf(core, path).Some? && path == dir + "/" + BaseName(path)
    ensures |StampText(core, path)| >= 15
    ensures forall b: Backup | Printable(b.date) :: EntryOf(core, PathOf(dir, core, Stamp(b.date), b)).Some?
    ensures Orderly(StampText(core, path), 0)
            <==> forall b: Backup | Printable(b.date) :: TimeOrdered(core, path, PathOf(dir, core, Stamp(b.date), b))
  {
    hide EntryOf, StrCaseCmp, DateOf, Accepted, Orderly, StampText, BaseName, Earlier, Ordered, TimeOrdered, PathOf,
        Stamp, NameRest;
    EntryDate(core, path);
    assert |StampText(core, path)| >= 15 by { AcceptedLength(StampText(core, path)); }
    forall b: Backup | Printable(b.date)
      ensures EntryOf(core, PathOf(dir, core, Stamp(b.date), b)).Some?
      ensures Orderly(StampText(core, path), 0) ==> TimeOrdered(core, path, PathOf(dir, core, Stamp(b.date), b))
    {
      AgainstPrinted(dir, core, path, b);
    }
    if !Orderly(StampText(core, path), 0) {
      var none := Backup(Date(0, 0, 0, 0, 0, 0), 0, 0);
      var d := OddWitness(StampText(core, path), NameRest(none));
      var b := none.(date := d);
      AgainstPrinted(dir, core, path, b);
      SameRest(none, b);
      NotOrdered(StampText(core, path), Stamp(d) + NameRest(b));
      assert !TimeOrdered(core, path, PathOf(dir, core, Stamp(b.date), b));
    }
  }

  /** A timestamp whose year is written with a plus sign and three digits. */
  function SignedStamp(d: Date): string
    requires Printable(d)
  {
    FourDigits(d.year);
    "+" + Padded(d.year, 3, 10, false) + Stamp(d)[4..]
  }

  lemma SignedFields(d: Date)
    requires Printable(d) && d.year < 1000
    ensures var s := SignedStamp(d);
            && |s| == 15 && s[8] == 'T' && s[0] == '+' && NoSlash(s)
            && FieldAt(s, 0, 4) == d.year && FieldAt(s, 4, 2) == d.month && FieldAt(s, 6, 2) == d.day
            && FieldAt(s, 9, 2) == d.hour && FieldAt(s, 11, 2) == d.minute && FieldAt(s, 13, 2) == d.second
  {
    hide Padded, Strtoul, Value, Stamp;
    var s, t, y := SignedStamp(d), Stamp(d), Padded(d.year, 3, 10, false);
    assert Pow(10, 2) == 10 * Pow(10, 1) == 100;
    assert Pow(10, 3) == 10 * Pow(10, 2) == 1000;
    PaddedWidth(d.year, 3, 10, false);
    ValueOfPadded(d.year, 3, 10, false);
    ParseSigned(y);
    PaddedNoSlash(d.year, 3, 10);
    StampNoSlash(d);
    StampFields(d, t);
    assert s[0..4] == "+" + y;
    assert s[4..6] == t[4..6] && s[6..8] == t[6..8];
    assert s[9..11] == t[9..11] && s[11..13] == t[11..13] && s[13..15] == t[13..15];
    assert s[8] == t[8];
  }

  /** A sign sorts before every printed timestamp. */
  lemma SignFirst(p: string, d: Date, rest: string)
    requires p != [] && p[0] == '+' && Printable(d)
    ensures StrCaseCmp(p, Stamp(d) + rest) < 0
  {
    hide Stamp, Padded;
    var q := Stamp(d) + rest;
    PrintedOrderly(d, q);
    assert PlainAt(q, 0) && q[0] == Text(q, 0)[0];
    assert p == [p[0]] + p[1..] && q == [q[0]] + q[1..];
    FirstCharOrder(p[0], q[0], p[1..], q[1..]);
  }

  /**
   * Two files the list accepts that sort the wrong way round: the one with a signed year sorts before every printed
   * one, also before those of an earlier year.
   */
  lemma SignedYearOutOfOrder(dir: string, core: string, a: Backup, b: Backup)
    requires core != [] && NoSlash(core) && Printable(a.date) && Printable(b.date)
    requires b.date.year < a.date.year < 1000
    ensures var x, y := PathOf(dir, core, SignedStamp(a.date), a), PathOf(dir, core, Stamp(b.date), b);
            && EntryOf(core, x) == Some(Entry(x, a)) && EntryOf(core, y) == Some(Entry(y, b))
            && StrCaseCmp(x, y) < 0 && Earlier(b.date, a.date)
  {
    hide BaseName, StampText, Stamp, SignedStamp, NameRest, FieldAt, Parse, StrCaseCmp, Orderly;
    var s, x, y := SignedStamp(a.date), PathOf(dir, core, SignedStamp(a.date), a), PathOf(dir, core, Stamp(b.date), b);
    SignedFields(a.date);
    PathParts(dir, core, s, a);
    NameParses(core, s, a);
    PrintedEntry(dir, core, b);
    StampNoSlash(b.date);
    PathParts(dir, core, Stamp(b.date), b);
    PathsSortAsStamps(dir + "/", core, x, y);
    SignFirst(s + NameRest(a), b.date, NameRest(b));
  }
}
