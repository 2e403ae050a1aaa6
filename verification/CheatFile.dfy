/** Cheat files: the key-value entries a save writes and what loading them restores. */
module CheatFile {
  import opened Words
  import opened Numerals
  import opened Cheats
  import opened Wrappers

  /** One entry of a config file, in file order. */
  datatype Entry = Entry(key: string, value: string)

  datatype Field =
    | Desc | Code | Enable | BigEndian
    | Handler | MemorySearchSize | CheatType | CheatValue | Address | AddressMask
    | RumbleType | RumbleValue | RumblePort | RumblePrimaryStrength | RumblePrimaryDuration
    | RumbleSecondaryStrength | RumbleSecondaryDuration | RepeatCount | RepeatAddToValue | RepeatAddToAddress

  datatype Content = Number(n: word) | Flag(b: bool) | Text(t: Option<string>)

  /** The fields of an entry, in the order a save writes them. */
  const FIELDS: seq<Field> := [
    Desc, Code, Enable, BigEndian, Handler, MemorySearchSize, CheatType, CheatValue, Address, AddressMask,
    RumbleType, RumbleValue, RumblePort, RumblePrimaryStrength, RumblePrimaryDuration,
    RumbleSecondaryStrength, RumbleSecondaryDuration, RepeatCount, RepeatAddToValue, RepeatAddToAddress]

  /** What follows `cheat<N>_` in the key of a field. */
  function Suffix(f: Field): string {
    match f
    case Desc => "desc"
    case Code => "code"
    case Enable => "enable"
    case BigEndian => "big_endian"
    case Handler => "handler"
    case MemorySearchSize => "memory_search_size"
    case CheatType => "cheat_type"
    case CheatValue => "value"
    case Address => "address"
    case AddressMask => "address_bit_position"
    case RumbleType => "rumble_type"
    case RumbleValue => "rumble_value"
    case RumblePort => "rumble_port"
    case RumblePrimaryStrength => "rumble_primary_strength"
    case RumblePrimaryDuration => "rumble_primary_duration"
    case RumbleSecondaryStrength => "rumble_secondary_strength"
    case RumbleSecondaryDuration => "rumble_secondary_duration"
    case RepeatCount => "repeat_count"
    case RepeatAddToValue => "repeat_add_to_value"
    case RepeatAddToAddress => "repeat_add_to_address"
  }

  function RepeatNamed(s: string): Option<Field> {
    if s == "repeat_add_to_address" then Some(RepeatAddToAddress)
    else if s == "repeat_add_to_value" then Some(RepeatAddToValue)
    else if s == "repeat_count" then Some(RepeatCount)
    else None
  }

  function RumbleNamed(s: string): Option<Field> {
    if s == "rumble_port" then Some(RumblePort)
    else if s == "rumble_primary_duration" then Some(RumblePrimaryDuration)
    else if s == "rumble_primary_strength" then Some(RumblePrimaryStrength)
    else if s == "rumble_secondary_duration" then Some(RumbleSecondaryDuration)
    else if s == "rumble_secondary_strength" then Some(RumbleSecondaryStrength)
    else if s == "rumble_type" then Some(RumbleType)
    else if s == "rumble_value" then Some(RumbleValue)
    else None
  }

  /** The field a loader recognises by that name, if any. */
  function FieldNamed(s: string): Option<Field> {
    if s == "address" then Some(Address)
    else if s == "address_bit_position" then Some(AddressMask)
    else if s == "big_endian" then Some(BigEndian)
    else if s == "cheat_type" then Some(CheatType)
    else if s == "code" then Some(Code)
    else if s == "desc" then Some(Desc)
    else if s == "enable" then Some(Enable)
    else if s == "handler" then Some(Handler)
    else if s == "memory_search_size" then Some(MemorySearchSize)
    else if "repeat_" <= s then RepeatNamed(s)
    else if "rumble" <= s then RumbleNamed(s)
    else if s == "value" then Some(CheatValue)
    else None
  }

  function Get(c: Cheat, f: Field): Content {
    match f
    case Desc => Text(c.desc)
    case Code => Text(c.code)
    case Enable => Flag(c.state)
    case BigEndian => Flag(c.bigEndian)
    case Handler => Number(c.handler)
    case MemorySearchSize => Number(c.memorySearchSize)
    case CheatType => Number(c.cheatType)
    case CheatValue => Number(c.value)
    case Address => Number(c.address)
    case AddressMask => Number(c.addressMask)
    case RumbleType => Number(c.rumbleType)
    case RumbleValue => Number(c.rumbleValue)
    case RumblePort => Number(c.rumblePort)
    case RumblePrimaryStrength => Number(c.rumblePrimaryStrength)
    case RumblePrimaryDuration => Number(c.rumblePrimaryDuration)
    case RumbleSecondaryStrength => Number(c.rumbleSecondaryStrength)
    case RumbleSecondaryDuration => Number(c.rumbleSecondaryDuration)
    case RepeatCount => Number(c.repeatCount)
    case RepeatAddToValue => Number(c.repeatAddToValue)
    case RepeatAddToAddress => Number(c.repeatAddToAddress)
  }

  // ---- saving ----

  /** `cheat<i>_<field>` */
  function Key(i: word, f: Field): string {
    "cheat" + Digits(i, 10, false) + "_" + Suffix(f)
  }

  /** The value a save writes for a field, or None when it writes no entry. */
  function Saved(c: Cheat, f: Field): Option<string> {
    var content := Get(c, f);
    if f == Desc && c.desc.Some? && c.desc.value != [] then c.desc
    else if f == Desc then c.code
    else if content.Number? then Some(Digits(content.n, 10, false))
    else if content.Flag? then Some(if content.b then "true" else "false")
    else content.t
  }

  /** `config_set_string`, which ignores a null value. */
  function Put(conf: seq<Entry>, key: string, value: Option<string>): seq<Entry> {
    if value.None? then conf else conf + [Entry(key, value.value)]
  }

  /** The entries of one cheat up to field number `k`. */
  function CheatEntries(i: word, c: Cheat, k: nat): seq<Entry>
    requires k <= |FIELDS|
  {
    if k == 0 then [] else Put(CheatEntries(i, c, k - 1), Key(i, FIELDS[k - 1]), Saved(c, FIELDS[k - 1]))
  }

  /** The entries of a saved list up to cheat number `n`, after the count. */
  function FileEntries(cs: seq<Cheat>, n: nat): seq<Entry>
    requires n <= |cs| < WORD_SIZE
  {
    if n == 0 then [Entry("cheats", Digits(|cs|, 10, false))]
    else FileEntries(cs, n - 1) + CheatEntries(n - 1, cs[n - 1], |FIELDS|)
  }

  // ---- loading ----

  function BoolOf(value: string): bool {
    value == "true" || value == "1"
  }

  function NumberOf(value: string): word {
    Wrap(Strtoul(value, 0).value)
  }

  /** The number of cheats a count entry announces: zero when the text is out of range. */
  function CountOf(value: string): word {
    if OutOfRange(value, 0) then 0 else NumberOf(value)
  }

  /** What a loader stores in field `f` for a value. */
  function Decoded(f: Field, value: string): Content {
    match f
    case Desc => Text(Some(value))
    case Code => Text(Some(value))
    case Enable => Flag(BoolOf(value))
    case BigEndian => Flag(BoolOf(value))
    case _ => Number(NumberOf(value))
  }

  function SetField(c: Cheat, f: Field, value: string): Cheat {
    match f
    case Desc => c.(desc := Some(value))
    case Code => c.(code := Some(value))
    case Enable => c.(state := BoolOf(value))
    case BigEndian => c.(bigEndian := BoolOf(value))
    case Handler => c.(handler := NumberOf(value))
    case MemorySearchSize => c.(memorySearchSize := NumberOf(value))
    case CheatType => c.(cheatType := NumberOf(value))
    case CheatValue => c.(value := NumberOf(value))
    case Address => c.(address := NumberOf(value))
    case AddressMask => c.(addressMask := NumberOf(value))
    case RumbleType => c.(rumbleType := NumberOf(value))
    case RumbleValue => c.(rumbleValue := NumberOf(value))
    case RumblePort => c.(rumblePort := NumberOf(value))
    case RumblePrimaryStrength => c.(rumblePrimaryStrength := NumberOf(value))
    case RumblePrimaryDuration => c.(rumblePrimaryDuration := NumberOf(value))
    case RumbleSecondaryStrength => c.(rumbleSecondaryStrength := NumberOf(value))
    case RumbleSecondaryDuration => c.(rumbleSecondaryDuration := NumberOf(value))
    case RepeatCount => c.(repeatCount := NumberOf(value))
    case RepeatAddToValue => c.(repeatAddToValue := NumberOf(value))
    case RepeatAddToAddress => c.(repeatAddToAddress := NumberOf(value))
  }

  /** Setting a field changes that field and no other. */
  lemma SetGet(c: Cheat, f: Field, value: string, g: Field)
    ensures Get(SetField(c, f, value), g) == if g == f then Decoded(f, value) else Get(c, g)
    ensures SetField(c, f, value).idx == c.idx
  {
    hide NumberOf, BoolOf;
  }

  /** The list entry and field an entry of a file is for, given the offset it is loaded at and the list's size. */
  datatype Target = Nothing | Target(index: nat, field: Field)

  function TargetOf(key: string, offset: word, size: nat): (t: Target)
    ensures t.Target? ==> t.index < size
  {
    if !("cheat" <= key) || |key| == 5 then Nothing
    else
      var p := Strtoul(key[5..], 10);
      if p.end == 0 || 5 + p.end == |key| then Nothing
      else
        var index := Wrap(Wrap(p.value) + offset);
        var field := FieldNamed(key[5 + p.end + 1..]);
        if index >= size || field.None? then Nothing else Target(index, field.value)
  }

  /** `cheat_manager_load_cb_second_pass` for one entry. */
  function LoadEntry(cs: seq<Cheat>, e: Entry, offset: word): (r: seq<Cheat>)
    ensures |r| == |cs|
  {
    var t := TargetOf(e.key, offset, |cs|);
    if t.Nothing? then cs else cs[t.index := SetField(cs[t.index], t.field, e.value)]
  }

  function LoadEntries(cs: seq<Cheat>, file: seq<Entry>, offset: word): (r: seq<Cheat>)
    ensures |r| == |cs|
  {
    if file == [] then cs else LoadEntry(LoadEntries(cs, file[..|file| - 1], offset), file[|file| - 1], offset)
  }

  /** `cheat_manager_load_cb_first_pass` over a file: the number of cheats it announces. */
  function CountAnnounced(file: seq<Entry>): word {
    if file == [] then 0
    else
      var e := file[|file| - 1];
      if e.key != "cheats" then CountAnnounced(file[..|file| - 1]) else CountOf(e.value)
  }

  // ---- round trip ----

  predicate IsRepeat(f: Field) {
    f == RepeatCount || f == RepeatAddToValue || f == RepeatAddToAddress
  }

  predicate IsRumble(f: Field) {
    || f == RumbleType || f == RumbleValue || f == RumblePort || f == RumblePrimaryStrength
        || f == RumblePrimaryDuration
    || f == RumbleSecondaryStrength || f == RumbleSecondaryDuration
  }

  lemma RepeatSuffixNamed(f: Field)
    requires IsRepeat(f)
    ensures RepeatNamed(Suffix(f)) == Some(f) && "repeat_" <= Suffix(f)
  {
  }

  lemma RumbleSuffixNamed(f: Field)
    requires IsRumble(f)
    ensures RumbleNamed(Suffix(f)) == Some(f) && "rumble" <= Suffix(f)
  {
  }

  lemma PlainSuffixNamed(f: Field)
    requires !IsRepeat(f) && !IsRumble(f)
    ensures FieldNamed(Suffix(f)) == Some(f)
  {
    hide RepeatNamed, RumbleNamed;
  }

  lemma PrefixedNames(s: string)
    ensures "repeat_" <= s ==> FieldNamed(s) == RepeatNamed(s)
    ensures "rumble" <= s ==> FieldNamed(s) == RumbleNamed(s)
  {
    hide RepeatNamed, RumbleNamed;
    if "repeat_" <= s || "rumble" <= s {
      assert s[0] == 'r';
    }
    assert "repeat_"[1] == 'e' && "rumble"[1] == 'u';
  }

  /** The loader recognises every name a save writes. */
  lemma SuffixNamed(f: Field)
    ensures FieldNamed(Suffix(f)) == Some(f)
  {
    hide FieldNamed, Suffix, RepeatNamed, RumbleNamed;
    PrefixedNames(Suffix(f));
    if IsRepeat(f) {
      RepeatSuffixNamed(f);
    } else if IsRumble(f) {
      RumbleSuffixNamed(f);
    } else {
      PlainSuffixNamed(f);
    }
  }

  /** Decimal digits that do not start with a zero are read in base 10. */
  lemma PlainDecimal(d: string)
    requires d != [] && AllDigits(d, 10) && d[0] != '0' && Value(d, 10) <= ULONG_MAX
    ensures Strtoul(d, 0) == Parsed(Value(d, 10), |d|) && !OutOfRange(d, 0)
  {
    hide Value, DigitValue, SpaceRun, DigitRun;
    WiderDigits(d, 10);
    DigitIsPlain(d[0]);
    SpaceRunIs(d, 0);
    assert d[0..] == d && d[0..|d|] == d;
    DigitRunIs(d, |d|, 10);
  }

  lemma ZeroReads()
    ensures NumberOf(Digits(0, 10, false)) == 0 && !OutOfRange(Digits(0, 10, false), 0)
  {
    hide Strtoul, OutOfRange;
    ParseZero(Digits(0, 10, false));
  }

  /** A number printed in decimal reads back, even though the loader lets the text choose the base. */
  lemma NumberReads(n: word)
    ensures NumberOf(Digits(n, 10, false)) == n && !OutOfRange(Digits(n, 10, false), 0)
  {
    hide Value, Strtoul, Digits, OutOfRange;
    ValueOfDigits(n, 10, false);
    if n == 0 {
      ZeroReads();
    } else {
      PlainDecimal(Digits(n, 10, false));
    }
  }

  /** What was saved decodes to the field's content; an entry without a description gets its code as one. */
  lemma SavedDecodes(c: Cheat, f: Field)
    ensures Saved(c, f).Some? && f != Desc ==> Decoded(f, Saved(c, f).value) == Get(c, f)
    ensures Saved(c, f).None? ==> Get(c, f) == Text(None) || (f == Desc && c.code == None)
    ensures Saved(c, Desc).Some? ==> Decoded(Desc, Saved(c, Desc).value)
                                     == Text(if c.desc.Some? && c.desc.value != [] then c.desc else c.code)
  {
    hide Digits, NumberOf;
    var content := Get(c, f);
    if content.Number? {
      NumberReads(content.n);
    }
  }

  /** A saved key leads back to its cheat and field: the keys are injective for all cheat numbers. */
  lemma KeyTarget(i: word, f: Field, offset: word, size: nat)
    requires i + offset < size <= WORD_SIZE
    ensures TargetOf(Key(i, f), offset, size) == Target(i + offset, f)
    ensures Key(i, f) != "cheats"
  {
    hide Digits, Strtoul, Suffix, FieldNamed, Value;
    var d := Digits(i, 10, false);
    ValueOfDigits(i, 10, false);
    var key := Key(i, f);
    assert key[..5] == "cheat";
    assert key[5..] == [] + d + ("_" + Suffix(f));
    assert !IsDigit('_', 10);
    ParseDigits([], d, "_" + Suffix(f), 10);
    assert key[5 + |d| + 1..] == Suffix(f);
    SuffixNamed(f);
    assert key[5] == d[0];
    assert !IsDigit('s', 10);
  }

  lemma CountKeyTarget(offset: word, size: nat)
    ensures TargetOf("cheats", offset, size) == Nothing
  {
    hide Value;
    assert "cheats"[5..] == "s";
    SpaceRunIs("s", 0);
    assert "s"[0..] == "s";
    DigitRunIs("s", 0, 10);
  }

  /** Entry `e` of a file loaded at `offset` is for field `f` of list entry `index`. */
  predicate Hits(e: Entry, offset: word, size: nat, index: nat, f: Field) {
    TargetOf(e.key, offset, size) == Target(index, f)
  }

  /**
   * After loading, a field holds what its entries say, when they all say the same, and is unchanged when it has none.
   */
  lemma {:induction false} LoadedField(cs: seq<Cheat>, file: seq<Entry>, offset: word, index: nat, f: Field,
      value: string)
    requires index < |cs|
    requires forall e | e in file && Hits(e, offset, |cs|, index, f) :: e.value == value
    ensures Get(LoadEntries(cs, file, offset)[index], f)
            == if exists e :: e in file && Hits(e, offset, |cs|, index, f) then Decoded(f, value) else Get(cs[index], f)
    ensures LoadEntries(cs, file, offset)[index].idx == cs[index].idx
  {
    hide TargetOf, SetField, Get, Decoded;
    if file != [] {
      var front, last := file[..|file| - 1], file[|file| - 1];
      assert file == front + [last];
      LoadedField(cs, front, offset, index, f, value);
      assert forall e :: e in file <==> e in front || e == last;
      var t := TargetOf(last.key, offset, |cs|);
      if t.Target? && t.index == index {
        SetGet(LoadEntries(cs, front, offset)[index], t.field, last.value, f);
      }
      if Hits(last, offset, |cs|, index, f) {
        assert last in file;
      } else {
        assert (exists e :: e in file && Hits(e, offset, |cs|, index, f)) <==> (exists e :: e in front && Hits(e,
            offset, |cs|, index, f));
      }
    }
  }

  lemma {:induction false} AnnouncedCount(file: seq<Entry>, value: string)
    requires exists e :: e in file && e.key == "cheats"
    requires forall e | e in file && e.key == "cheats" :: e.value == value
    ensures CountAnnounced(file) == CountOf(value)
  {
    hide CountOf;
    var front, last := file[..|file| - 1], file[|file| - 1];
    assert file == front + [last];
    if last.key != "cheats" {
      AnnouncedCount(front, value);
    }
  }

  predicate SavedEntry(e: Entry, cs: seq<Cheat>, i: nat, f: Field)
    requires |cs| < WORD_SIZE
  {
    i < |cs| && Saved(cs[i], f).Some? && e == Entry(Key(i, f), Saved(cs[i], f).value)
  }

  /** Entry `e` is the count, or the saved value of some field of some cheat below `n`. */
  ghost predicate FromSave(e: Entry, cs: seq<Cheat>, n: nat)
    requires n <= |cs| < WORD_SIZE
  {
    || e == Entry("cheats", Digits(|cs|, 10, false))
    || exists i: nat, f: Field :: i < n && SavedEntry(e, cs, i, f)
  }

  lemma {:induction false} CheatEntriesAre(i: word, c: Cheat, k: nat, e: Entry)
    requires k <= |FIELDS|
    ensures e in CheatEntries(i, c, k)
            <==> exists j: nat :: j < k && Saved(c, FIELDS[j]).Some? && e == Entry(Key(i, FIELDS[j]), Saved(c,
                FIELDS[j]).value)
  {
    hide Key, Saved;
    if k > 0 {
      CheatEntriesAre(i, c, k - 1, e);
    }
  }

  lemma FieldListed(f: Field)
    ensures exists j: nat :: j < |FIELDS| && FIELDS[j] == f
  {
    var j: nat := match f
      case Desc => 0 case Code => 1 case Enable => 2 case BigEndian => 3
      case Handler => 4 case MemorySearchSize => 5 case CheatType => 6 case CheatValue => 7
      case Address => 8 case AddressMask => 9
      case RumbleType => 10 case RumbleValue => 11 case RumblePort => 12 case RumblePrimaryStrength => 13
      case RumblePrimaryDuration => 14 case RumbleSecondaryStrength => 15 case RumbleSecondaryDuration => 16
      case RepeatCount => 17 case RepeatAddToValue => 18 case RepeatAddToAddress => 19;
    assert FIELDS[j] == f;
  }

  /** The entries of a saved list are the count and the saved fields, and nothing else. */
  lemma {:induction false} FileEntriesAre(cs: seq<Cheat>, n: nat, e: Entry)
    requires n <= |cs| < WORD_SIZE
    ensures e in FileEntries(cs, n) <==> FromSave(e, cs, n)
  {
    hide Key, Saved, CheatEntries, Digits;
    if n > 0 {
      var i := n - 1;
      FileEntriesAre(cs, i, e);
      CheatEntriesAre(i, cs[i], |FIELDS|, e);
      if e in CheatEntries(i, cs[i], |FIELDS|) {
        var j: nat :| j < |FIELDS| && Saved(cs[i], FIELDS[j]).Some? && e == Entry(Key(i, FIELDS[j]), Saved(cs[i],
            FIELDS[j]).value);
        assert SavedEntry(e, cs, i, FIELDS[j]);
      }
      forall f: Field | SavedEntry(e, cs, i, f)
        ensures e in CheatEntries(i, cs[i], |FIELDS|)
      {
        FieldListed(f);
      }
    }
  }

  /** Same entries, in whatever order the file has them. */
  predicate FileOf(file: seq<Entry>, cs: seq<Cheat>)
    requires |cs| < WORD_SIZE
  {
    multiset(file) == multiset(FileEntries(cs, |cs|))
  }

  lemma FileMembers(file: seq<Entry>, cs: seq<Cheat>, e: Entry)
    requires |cs| < WORD_SIZE && FileOf(file, cs)
    ensures e in file <==> FromSave(e, cs, |cs|)
  {
    hide FileEntries, FromSave;
    FileEntriesAre(cs, |cs|, e);
    assert e in file <==> e in multiset(file);
    assert e in FileEntries(cs, |cs|) <==> e in multiset(FileEntries(cs, |cs|));
  }

  /** The entries of a save that are for a field of a list entry: only that field's own, and none below the offset. */
  lemma SavedHits(file: seq<Entry>, cs: seq<Cheat>, offset: word, index: nat, f: Field, e: Entry)
    requires offset + |cs| < WORD_SIZE && FileOf(file, cs) && index < offset + |cs|
    requires e in file && Hits(e, offset, offset + |cs|, index, f)
    ensures index >= offset && SavedEntry(e, cs, index - offset, f)
  {
    hide FileOf, TargetOf, Key, Saved, Digits;
    FileMembers(file, cs, e);
    CountKeyTarget(offset, offset + |cs|);
    var i: nat, g: Field :| i < |cs| && SavedEntry(e, cs, i, g);
    KeyTarget(i, g, offset, offset + |cs|);
  }

  lemma KeyHits(e: Entry, offset: word, size: nat, index: nat, f: Field)
    requires TargetOf(e.key, offset, size) == Target(index, f)
    ensures Hits(e, offset, size, index, f)
  {
  }

  /** Loading a saved file at an offset: what each field of each entry holds afterwards. */
  lemma LoadedSave(file: seq<Entry>, cs: seq<Cheat>, before: seq<Cheat>, offset: word, index: nat, f: Field)
    requires |before| == offset + |cs| < WORD_SIZE && FileOf(file, cs) && index < |before|
    ensures LoadEntries(before, file, offset)[index].idx == before[index].idx
    ensures Get(LoadEntries(before, file, offset)[index], f)
            == if index >= offset && Saved(cs[index - offset], f).Some? then Decoded(f, Saved(cs[index - offset],
                f).value)
               else Get(before[index], f)
  {
    hide FileOf, TargetOf, Key, Saved, Digits, Get, Decoded, Hits;
    forall e | e in file && Hits(e, offset, |before|, index, f)
      ensures index >= offset && SavedEntry(e, cs, index - offset, f)
    {
      SavedHits(file, cs, offset, index, f, e);
    }
    if index >= offset && Saved(cs[index - offset], f).Some? {
      var i: nat, value := index - offset, Saved(cs[index - offset], f).value;
      var e := Entry(Key(i, f), value);
      assert SavedEntry(e, cs, i, f);
      FileMembers(file, cs, e);
      KeyTarget(i, f, offset, |before|);
      assert e in file && Hits(e, offset, |before|, index, f) by { KeyHits(e, offset, |before|, index, f); }
      LoadedField(before, file, offset, index, f, value);
    } else {
      LoadedField(before, file, offset, index, f, []);
    }
  }

  predicate SameField(c: Cheat, d: Cheat, f: Field) {
    Get(c, f) == Get(d, f)
  }

  /** The same, field by field of the record. */
  predicate FieldsMatch(c: Cheat, d: Cheat, f: Field) {
    match f
    case Desc => c.desc == d.desc
    case Code => c.code == d.code
    case Enable => c.state == d.state
    case BigEndian => c.bigEndian == d.bigEndian
    case Handler => c.handler == d.handler
    case MemorySearchSize => c.memorySearchSize == d.memorySearchSize
    case CheatType => c.cheatType == d.cheatType
    case CheatValue => c.value == d.value
    case Address => c.address == d.address
    case AddressMask => c.addressMask == d.addressMask
    case RumbleType => c.rumbleType == d.rumbleType
    case RumbleValue => c.rumbleValue == d.rumbleValue
    case RumblePort => c.rumblePort == d.rumblePort
    case RumblePrimaryStrength => c.rumblePrimaryStrength == d.rumblePrimaryStrength
    case RumblePrimaryDuration => c.rumblePrimaryDuration == d.rumblePrimaryDuration
    case RumbleSecondaryStrength => c.rumbleSecondaryStrength == d.rumbleSecondaryStrength
    case RumbleSecondaryDuration => c.rumbleSecondaryDuration == d.rumbleSecondaryDuration
    case RepeatCount => c.repeatCount == d.repeatCount
    case RepeatAddToValue => c.repeatAddToValue == d.repeatAddToValue
    case RepeatAddToAddress => c.repeatAddToAddress == d.repeatAddToAddress
  }

  lemma MatchingField(c: Cheat, d: Cheat, f: Field)
    requires SameField(c, d, f)
    ensures FieldsMatch(c, d, f)
  {
  }

  lemma SameSettings(c: Cheat, d: Cheat)
    requires forall f: Field :: SameField(c, d, f)
    ensures c.desc == d.desc && c.code == d.code && c.state == d.state
    ensures c.bigEndian == d.bigEndian && c.handler == d.handler && c.memorySearchSize == d.memorySearchSize
    ensures c.cheatType == d.cheatType
  {
    hide Get, SameField;
    MatchingField(c, d, Desc);
    MatchingField(c, d, Code);
    MatchingField(c, d, Enable);
    MatchingField(c, d, BigEndian);
    MatchingField(c, d, Handler);
    MatchingField(c, d, MemorySearchSize);
    MatchingField(c, d, CheatType);
  }

  lemma SameTarget(c: Cheat, d: Cheat)
    requires forall f: Field :: SameField(c, d, f)
    ensures c.value == d.value && c.address == d.address && c.addressMask == d.addressMask
    ensures c.rumbleType == d.rumbleType && c.rumbleValue == d.rumbleValue && c.rumblePort == d.rumblePort
    ensures c.rumblePrimaryStrength == d.rumblePrimaryStrength
  {
    hide Get, SameField;
    MatchingField(c, d, CheatValue);
    MatchingField(c, d, Address);
    MatchingField(c, d, AddressMask);
    MatchingField(c, d, RumbleType);
    MatchingField(c, d, RumbleValue);
    MatchingField(c, d, RumblePort);
    MatchingField(c, d, RumblePrimaryStrength);
  }

  lemma SameRepeats(c: Cheat, d: Cheat)
    requires forall f: Field :: SameField(c, d, f)
    ensures c.rumblePrimaryDuration == d.rumblePrimaryDuration
        && c.rumbleSecondaryStrength == d.rumbleSecondaryStrength
        && c.rumbleSecondaryDuration == d.rumbleSecondaryDuration
    ensures c.repeatCount == d.repeatCount && c.repeatAddToValue == d.repeatAddToValue
        && c.repeatAddToAddress == d.repeatAddToAddress
  {
    hide Get, SameField;
    MatchingField(c, d, RumblePrimaryDuration);
    MatchingField(c, d, RumbleSecondaryStrength);
    MatchingField(c, d, RumbleSecondaryDuration);
    MatchingField(c, d, RepeatCount);
    MatchingField(c, d, RepeatAddToValue);
    MatchingField(c, d, RepeatAddToAddress);
  }

  /** Entries with the same fields and index are the same. */
  lemma SameByFields(c: Cheat, d: Cheat)
    requires c.idx == d.idx && forall f: Field :: SameField(c, d, f)
    ensures c == d
  {
    hide Get, SameField;
    SameSettings(c, d);
    SameTarget(c, d);
    SameRepeats(c, d);
  }

  /** The entry a load starts from at index `i`. */
  function BlankCheat(i: nat): Cheat {
    FreshCheat(Wrap(i), HANDLER_EMU)
  }

  /** The list a load fills: the cheats that were there, then blank entries. */
  function Blanks(earlier: seq<Cheat>, count: nat): (r: seq<Cheat>)
    ensures |r| == |earlier| + count
  {
    earlier + seq(count, k requires 0 <= k < count => BlankCheat(|earlier| + k))
  }

  /**
   * What loading makes of a saved cheat: the cheat itself, renumbered, with its code as description when it had none.
   */
  function Restored(c: Cheat, index: nat): Cheat {
    c.(idx := Wrap(index), desc := if c.desc.Some? && c.desc.value != [] then c.desc else c.code)
  }

  /**
   * A cheat comes back unchanged exactly when it keeps its place and has a description, or its code is its
   * description.
   */
  lemma RestoredExact(c: Cheat, index: nat)
    ensures Restored(c, index) == c
            <==> c.idx == Wrap(index) && ((c.desc.Some? && c.desc.value != []) || c.desc == c.code)
  {
  }

  /** The first cheat of a list, with a code and no description. */
  lemma CodeBecomesDescription(code: string)
    ensures var c := ZERO_CHEAT.(code := Some(code));
            Restored(c, 0) == c.(desc := Some(code)) != c
  {
  }

  /** Loading leaves an earlier entry as it was. */
  lemma EarlierKept(file: seq<Entry>, cs: seq<Cheat>, earlier: seq<Cheat>, t: nat)
    requires |earlier| + |cs| < WORD_SIZE && FileOf(file, cs) && t < |earlier|
    ensures LoadEntries(Blanks(earlier, |cs|), file, |earlier|)[t] == earlier[t]
  {
    hide FileOf, Get, LoadEntries, Saved, Decoded, BlankCheat;
    var m, before := |earlier|, Blanks(earlier, |cs|);
    var c := LoadEntries(before, file, m)[t];
    forall f: Field
      ensures SameField(c, earlier[t], f)
    {
      LoadedSave(file, cs, before, m, t, f);
    }
    LoadedSave(file, cs, before, m, t, Desc);
    SameByFields(c, earlier[t]);
  }

  lemma BlankIndex(i: nat)
    ensures BlankCheat(i).idx == Wrap(i)
  {
  }

  lemma RestoredField(c: Cheat, index: nat, f: Field)
    ensures Get(Restored(c, index), f) == if Saved(c, f).Some? then Decoded(f, Saved(c,
        f).value) else Get(BlankCheat(index), f)
  {
    hide Digits, NumberOf;
    SavedDecodes(c, f);
  }

  /** A saved entry comes back. */
  lemma SavedRestored(file: seq<Entry>, cs: seq<Cheat>, earlier: seq<Cheat>, i: nat)
    requires |earlier| + |cs| < WORD_SIZE && FileOf(file, cs) && i < |cs|
    ensures LoadEntries(Blanks(earlier, |cs|), file, |earlier|)[|earlier| + i] == Restored(cs[i], |earlier| + i)
  {
    hide FileOf, Get, LoadEntries, Saved, Decoded, BlankCheat;
    var m, before := |earlier|, Blanks(earlier, |cs|);
    var c, d := LoadEntries(before, file, m)[m + i], Restored(cs[i], m + i);
    assert before[m + i] == BlankCheat(m + i);
    forall f: Field
      ensures SameField(c, d, f)
    {
      LoadedSave(file, cs, before, m, m + i, f);
      RestoredField(cs[i], m + i, f);
    }
    LoadedSave(file, cs, before, m, m + i, Desc);
    BlankIndex(m + i);
    SameByFields(c, d);
  }

  lemma AnnouncedBySave(file: seq<Entry>, cs: seq<Cheat>)
    requires |cs| < WORD_SIZE && FileOf(file, cs)
    ensures CountAnnounced(file) == |cs|
  {
    hide FileOf, Saved, Digits, NumberOf, OutOfRange, Key;
    var count := Entry("cheats", Digits(|cs|, 10, false));
    FileMembers(file, cs, count);
    forall e | e in file && e.key == "cheats"
      ensures e.value == Digits(|cs|, 10, false)
    {
      FileMembers(file, cs, e);
      if e != count {
        var i: nat, f: Field :| i < |cs| && SavedEntry(e, cs, i, f);
        KeyTarget(i, f, 0, |cs|);
      }
    }
    AnnouncedCount(file, Digits(|cs|, 10, false));
    NumberReads(|cs|);
  }

  /**
   * Saving a list and loading the file, in any entry order, onto a list of earlier cheats: the earlier ones stay as
   * they were and every saved one comes back, in order, after them.
   */
  lemma FileRoundTrip(file: seq<Entry>, cs: seq<Cheat>, earlier: seq<Cheat>)
    requires |earlier| + |cs| < WORD_SIZE && FileOf(file, cs)
    ensures CountAnnounced(file) == |cs|
    ensures LoadEntries(Blanks(earlier, |cs|), file, |earlier|)
            == earlier + seq(|cs|, i requires 0 <= i < |cs| => Restored(cs[i], |earlier| + i))
  {
    hide FileOf, LoadEntries, Restored, CountAnnounced, Blanks;
    AnnouncedBySave(file, cs);
    forall t: nat | t < |earlier|
      ensures LoadEntries(Blanks(earlier, |cs|), file, |earlier|)[t] == earlier[t]
    {
      EarlierKept(file, cs, earlier, t);
    }
    var rest := seq(|cs|, i requires 0 <= i < |cs| => Restored(cs[i], |earlier| + i));
    forall i: nat | i < |cs|
      ensures LoadEntries(Blanks(earlier, |cs|), file, |earlier|)[|earlier| + i] == rest[i]
    {
      SavedRestored(file, cs, earlier, i);
    }
    var loaded := LoadEntries(Blanks(earlier, |cs|), file, |earlier|);
    assert loaded == loaded[..|earlier|] + loaded[|earlier|..];
    assert loaded[..|earlier|] == earlier;
    assert loaded[|earlier|..] == rest;
  }
}
