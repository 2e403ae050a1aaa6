/** Cheat files letter by letter: the texts a save writes, and what a text loaded does to the list. */
module CheatFileTexts {
  import opened Words
  import opened Numerals
  import opened Cheats
  import opened CheatFile
  import opened Wrappers

  lemma SavedOne(cs: seq<Cheat>, i: nat, f: Field)
    requires i < |cs| < WORD_SIZE
    ensures Saved(cs[i], f).Some? ==> Entry(Key(i, f), Saved(cs[i], f).value) in FileEntries(cs, |cs|)
  {
    hide FileEntries, Saved, Key, Digits;
    if Saved(cs[i], f).Some? {
      var e := Entry(Key(i, f), Saved(cs[i], f).value);
      FileEntriesAre(cs, |cs|, e);
      assert SavedEntry(e, cs, i, f);
    }
  }

  /** The entry a save makes of a number: `cheat<i>_<name>` and its decimal digits. */
  function NumberEntry(i: nat, name: string, n: word): Entry {
    Entry("cheat" + Digits(i, 10, false) + "_" + name, Digits(n, 10, false))
  }

  lemma SavedNumber(cs: seq<Cheat>, i: nat, f: Field)
    requires i < |cs| < WORD_SIZE && Get(cs[i], f).Number?
    ensures NumberEntry(i, Suffix(f), Get(cs[i], f).n) in FileEntries(cs, |cs|)
  {
    hide FileEntries, Digits, Suffix;
    SavedOne(cs, i, f);
  }

  /** What a save writes of cheat `i`: handler, size and type. */
  lemma SavedTarget(cs: seq<Cheat>, i: nat)
    requires i < |cs| < WORD_SIZE
    ensures var c, file := cs[i], FileEntries(cs, |cs|);
            && NumberEntry(i, "handler", c.handler) in file
            && NumberEntry(i, "memory_search_size", c.memorySearchSize) in file
            && NumberEntry(i, "cheat_type", c.cheatType) in file
  {
    hide FileEntries, NumberEntry;
    SavedNumber(cs, i, Handler);
    SavedNumber(cs, i, MemorySearchSize);
    SavedNumber(cs, i, CheatType);
  }

  /** What a save writes of cheat `i`: value, address and mask. */
  lemma SavedWrite(cs: seq<Cheat>, i: nat)
    requires i < |cs| < WORD_SIZE
    ensures var c, file := cs[i], FileEntries(cs, |cs|);
            && NumberEntry(i, "value", c.value) in file
            && NumberEntry(i, "address", c.address) in file
            && NumberEntry(i, "address_bit_position", c.addressMask) in file
  {
    hide FileEntries, NumberEntry;
    SavedNumber(cs, i, CheatValue);
    SavedNumber(cs, i, Address);
    SavedNumber(cs, i, AddressMask);
  }

  /** What a save writes of cheat `i`: the repeats. */
  lemma SavedRepeat(cs: seq<Cheat>, i: nat)
    requires i < |cs| < WORD_SIZE
    ensures var c, file := cs[i], FileEntries(cs, |cs|);
            && NumberEntry(i, "repeat_count", c.repeatCount) in file
            && NumberEntry(i, "repeat_add_to_value", c.repeatAddToValue) in file
            && NumberEntry(i, "repeat_add_to_address", c.repeatAddToAddress) in file
  {
    hide FileEntries, NumberEntry;
    SavedNumber(cs, i, RepeatCount);
    SavedNumber(cs, i, RepeatAddToValue);
    SavedNumber(cs, i, RepeatAddToAddress);
  }

  /** What a save writes of cheat `i`: the rumble's trigger. */
  lemma SavedRumble(cs: seq<Cheat>, i: nat)
    requires i < |cs| < WORD_SIZE
    ensures var c, file := cs[i], FileEntries(cs, |cs|);
            && NumberEntry(i, "rumble_type", c.rumbleType) in file
            && NumberEntry(i, "rumble_value", c.rumbleValue) in file
            && NumberEntry(i, "rumble_port", c.rumblePort) in file
  {
    hide FileEntries, NumberEntry;
    SavedNumber(cs, i, RumbleType);
    SavedNumber(cs, i, RumbleValue);
    SavedNumber(cs, i, RumblePort);
  }

  /** What a save writes of cheat `i`: the primary rumble. */
  lemma SavedPrimaryRumble(cs: seq<Cheat>, i: nat)
    requires i < |cs| < WORD_SIZE
    ensures var c, file := cs[i], FileEntries(cs, |cs|);
            && NumberEntry(i, "rumble_primary_strength", c.rumblePrimaryStrength) in file
            && NumberEntry(i, "rumble_primary_duration", c.rumblePrimaryDuration) in file
  {
    hide FileEntries, NumberEntry;
    SavedNumber(cs, i, RumblePrimaryStrength);
    SavedNumber(cs, i, RumblePrimaryDuration);
  }

  /** What a save writes of cheat `i`: the secondary rumble. */
  lemma SavedSecondaryRumble(cs: seq<Cheat>, i: nat)
    requires i < |cs| < WORD_SIZE
    ensures var c, file := cs[i], FileEntries(cs, |cs|);
            && NumberEntry(i, "rumble_secondary_strength", c.rumbleSecondaryStrength) in file
            && NumberEntry(i, "rumble_secondary_duration", c.rumbleSecondaryDuration) in file
  {
    hide FileEntries, NumberEntry;
    SavedNumber(cs, i, RumbleSecondaryStrength);
    SavedNumber(cs, i, RumbleSecondaryDuration);
  }

  /** The count, the flags, and the two texts: without a description the code is written as one. */
  lemma SavedTexts(cs: seq<Cheat>, i: nat)
    requires i < |cs| < WORD_SIZE
    ensures var k, c, file := "cheat" + Digits(i, 10, false) + "_", cs[i], FileEntries(cs, |cs|);
            && Entry("cheats", Digits(|cs|, 10, false)) in file
            && Entry(k + "enable", if c.state then "true" else "false") in file
            && Entry(k + "big_endian", if c.bigEndian then "true" else "false") in file
            && (c.desc.Some? && c.desc.value != [] ==> Entry(k + "desc", c.desc.value) in file)
            && ((c.desc.None? || c.desc.value == []) && c.code.Some? ==> Entry(k + "desc", c.code.value) in file)
            && (c.code.Some? ==> Entry(k + "code", c.code.value) in file)
  {
    hide FileEntries, Digits;
    FileEntriesAre(cs, |cs|, Entry("cheats", Digits(|cs|, 10, false)));
    SavedOne(cs, i, Enable);
    SavedOne(cs, i, BigEndian);
    SavedOne(cs, i, Desc);
    SavedOne(cs, i, Code);
  }

  // ---- loading ----

  /** Loading a key and a text sets the field the key names, of the cheat at its number and the offset. */
  lemma LoadedOne(cs: seq<Cheat>, i: word, f: Field, text: string, offset: word)
    requires i + offset < |cs| <= WORD_SIZE
    ensures LoadEntry(cs, Entry(Key(i, f), text), offset) == cs[i + offset := SetField(cs[i + offset], f, text)]
  {
    hide Key, SetField, TargetOf;
    KeyTarget(i, f, offset, |cs|);
  }

  /** The cheat at number `i` and the offset after loading the number `n` under a name. */
  function NumberLoaded(cs: seq<Cheat>, i: word, name: string, n: word, offset: word): Cheat
    requires i + offset < |cs|
  {
    LoadEntry(cs, NumberEntry(i, name, n), offset)[i + offset]
  }

  lemma LoadedNumber(cs: seq<Cheat>, i: word, f: Field, n: word, offset: word)
    requires i + offset < |cs| <= WORD_SIZE
    ensures NumberLoaded(cs, i, Suffix(f), n, offset) == SetField(cs[i + offset], f, Digits(n, 10, false))
    ensures NumberOf(Digits(n, 10, false)) == n
    ensures LoadEntry(cs, NumberEntry(i, Suffix(f), n), offset)
            == cs[i + offset := NumberLoaded(cs, i, Suffix(f), n, offset)]
  {
    hide SetField, Digits, Suffix, LoadEntry, NumberOf;
    NumberReads(n);
    LoadedOne(cs, i, f, Digits(n, 10, false), offset);
  }

  /** What a load sets by name: handler, size and type. */
  lemma LoadedTarget(cs: seq<Cheat>, i: word, n: word, offset: word)
    requires i + offset < |cs| <= WORD_SIZE
    ensures var c := cs[i + offset];
            && NumberLoaded(cs, i, "handler", n, offset) == c.(handler := n)
            && NumberLoaded(cs, i, "memory_search_size", n, offset) == c.(memorySearchSize := n)
            && NumberLoaded(cs, i, "cheat_type", n, offset) == c.(cheatType := n)
  {
    hide NumberLoaded, Digits, NumberOf, NumberEntry, LoadEntry;
    LoadedNumber(cs, i, Handler, n, offset);
    LoadedNumber(cs, i, MemorySearchSize, n, offset);
    LoadedNumber(cs, i, CheatType, n, offset);
  }

  /** What a load sets by name: value, address and mask. */
  lemma LoadedWrite(cs: seq<Cheat>, i: word, n: word, offset: word)
    requires i + offset < |cs| <= WORD_SIZE
    ensures var c := cs[i + offset];
            && NumberLoaded(cs, i, "value", n, offset) == c.(value := n)
            && NumberLoaded(cs, i, "address", n, offset) == c.(address := n)
            && NumberLoaded(cs, i, "address_bit_position", n, offset) == c.(addressMask := n)
  {
    hide NumberLoaded, Digits, NumberOf, NumberEntry, LoadEntry;
    LoadedNumber(cs, i, CheatValue, n, offset);
    LoadedNumber(cs, i, Address, n, offset);
    LoadedNumber(cs, i, AddressMask, n, offset);
  }

  /** What a load sets by name: the repeats. */
  lemma LoadedRepeat(cs: seq<Cheat>, i: word, n: word, offset: word)
    requires i + offset < |cs| <= WORD_SIZE
    ensures var c := cs[i + offset];
            && NumberLoaded(cs, i, "repeat_count", n, offset) == c.(repeatCount := n)
            && NumberLoaded(cs, i, "repeat_add_to_value", n, offset) == c.(repeatAddToValue := n)
            && NumberLoaded(cs, i, "repeat_add_to_address", n, offset) == c.(repeatAddToAddress := n)
  {
    hide NumberLoaded, Digits, NumberOf, NumberEntry, LoadEntry;
    LoadedNumber(cs, i, RepeatCount, n, offset);
    LoadedNumber(cs, i, RepeatAddToValue, n, offset);
    LoadedNumber(cs, i, RepeatAddToAddress, n, offset);
  }

  /** What a load sets by name: the rumble's trigger. */
  lemma LoadedRumble(cs: seq<Cheat>, i: word, n: word, offset: word)
    requires i + offset < |cs| <= WORD_SIZE
    ensures var c := cs[i + offset];
            && NumberLoaded(cs, i, "rumble_type", n, offset) == c.(rumbleType := n)
            && NumberLoaded(cs, i, "rumble_value", n, offset) == c.(rumbleValue := n)
            && NumberLoaded(cs, i, "rumble_port", n, offset) == c.(rumblePort := n)
  {
    hide NumberLoaded, Digits, NumberOf, NumberEntry, LoadEntry;
    LoadedNumber(cs, i, RumbleType, n, offset);
    LoadedNumber(cs, i, RumbleValue, n, offset);
    LoadedNumber(cs, i, RumblePort, n, offset);
  }

  /** What a load sets by name: the primary rumble. */
  lemma LoadedPrimaryRumble(cs: seq<Cheat>, i: word, n: word, offset: word)
    requires i + offset < |cs| <= WORD_SIZE
    ensures var c := cs[i + offset];
            && NumberLoaded(cs, i, "rumble_primary_strength", n, offset) == c.(rumblePrimaryStrength := n)
            && NumberLoaded(cs, i, "rumble_primary_duration", n, offset) == c.(rumblePrimaryDuration := n)
  {
    hide NumberLoaded, Digits, NumberOf, NumberEntry, LoadEntry;
    LoadedNumber(cs, i, RumblePrimaryStrength, n, offset);
    LoadedNumber(cs, i, RumblePrimaryDuration, n, offset);
  }

  /** What a load sets by name: the secondary rumble. */
  lemma LoadedSecondaryRumble(cs: seq<Cheat>, i: word, n: word, offset: word)
    requires i + offset < |cs| <= WORD_SIZE
    ensures var c := cs[i + offset];
            && NumberLoaded(cs, i, "rumble_secondary_strength", n, offset) == c.(rumbleSecondaryStrength := n)
            && NumberLoaded(cs, i, "rumble_secondary_duration", n, offset) == c.(rumbleSecondaryDuration := n)
  {
    hide NumberLoaded, Digits, NumberOf, NumberEntry, LoadEntry;
    LoadedNumber(cs, i, RumbleSecondaryStrength, n, offset);
    LoadedNumber(cs, i, RumbleSecondaryDuration, n, offset);
  }

  /** What the texts set: a flag is on for "true" and "1" alone. */
  lemma LoadedTexts(cs: seq<Cheat>, i: word, text: string, offset: word)
    requires i + offset < |cs| <= WORD_SIZE
    ensures var k, at, on := "cheat" + Digits(i, 10, false) + "_", i + offset, text == "true" || text == "1";
            && LoadEntry(cs, Entry(k + "desc", text), offset) == cs[at := cs[at].(desc := Some(text))]
            && LoadEntry(cs, Entry(k + "code", text), offset) == cs[at := cs[at].(code := Some(text))]
            && LoadEntry(cs, Entry(k + "enable", text), offset) == cs[at := cs[at].(state := on)]
            && LoadEntry(cs, Entry(k + "big_endian", text), offset) == cs[at := cs[at].(bigEndian := on)]
  {
    hide LoadEntry, Digits;
    LoadedOne(cs, i, Desc, text, offset);
    LoadedOne(cs, i, Code, text, offset);
    LoadedOne(cs, i, Enable, text, offset);
    LoadedOne(cs, i, BigEndian, text, offset);
  }

  /** Entries act in the order of the file, each on what the earlier ones left: of two for one field the later stays. */
  lemma {:induction false} EntriesInOrder(cs: seq<Cheat>, a: seq<Entry>, b: seq<Entry>, offset: word)
    ensures LoadEntries(cs, [], offset) == cs
    ensures LoadEntries(cs, a + b, offset) == LoadEntries(LoadEntries(cs, a, offset), b, offset)
  {
    hide LoadEntry;
    if b == [] {
      assert a + b == a;
    } else {
      var front := b[..|b| - 1];
      EntriesInOrder(cs, a, front, offset);
      assert (a + b)[..|a + b| - 1] == a + front;
    }
  }

  /** The last count entry is the one that counts. */
  lemma CountEntries(file: seq<Entry>, e: Entry)
    ensures CountAnnounced([]) == 0
    ensures CountAnnounced(file + [e]) == if e.key == "cheats" then CountOf(e.value) else CountAnnounced(file)
  {
    hide CountOf;
    assert (file + [e])[..|file|] == file;
  }

  lemma ZeroText()
    ensures Digits(0, 10, false) == "0"
  {
  }

  /** A number of any size, printed in decimal: what a field takes of it, and what a count does. */
  lemma AnyNumberReads(n: nat)
    ensures NumberOf(Digits(n, 10, false)) == if n > 0xFFFF_FFFF_FFFF_FFFF then 0xFFFF_FFFF else n % 0x1_0000_0000
    ensures CountOf(Digits(n, 10, false)) == if n > 0xFFFF_FFFF_FFFF_FFFF then 0 else n % 0x1_0000_0000
  {
    hide Value, Strtoul, OutOfRange, Digits;
    var d := Digits(n, 10, false);
    if n == 0 {
      ZeroReads();
      ParseZero("0");
      ZeroText();
    } else {
      ValueOfDigits(n, 10, false);
      StrtoulExact([], "", "", d, [], 0, 10);
      assert [] + "" + "" + d + [] == d;
    }
  }

  /** Hexadecimal and octal values are read too, by their prefix. */
  lemma PrefixedNumberReads(ds: string)
    requires ds != []
    ensures AllDigits(ds, 16) && Value(ds, 16) < 0x1_0000_0000 ==> NumberOf("0x" + ds) == Value(ds, 16)
    ensures AllDigits(ds, 8) && Value("0" + ds, 8) < 0x1_0000_0000 ==> NumberOf("0" + ds) == Value("0" + ds, 8)
  {
    hide Value, Strtoul, OutOfRange;
    if AllDigits(ds, 16) && Value(ds, 16) < 0x1_0000_0000 {
      StrtoulExact([], "", "0x", ds, [], 0, 16);
      assert [] + "" + "0x" + ds + [] == "0x" + ds;
    }
    if AllDigits(ds, 8) && Value("0" + ds, 8) < 0x1_0000_0000 {
      StrtoulExact([], "", "", "0" + ds, [], 0, 8);
      assert [] + "" + "" + ("0" + ds) + [] == "0" + ds;
    }
  }

  /** The entry a load starts from, field by field. */
  lemma BlankFields(i: word)
    ensures var c := BlankCheat(i);
            && c.idx == i && c.handler == 0 && c.cheatType == 1 && c.memorySearchSize == 3
            && c.value == c.address == c.addressMask == 0 && !c.bigEndian && !c.state
            && c.repeatCount == 1 && c.repeatAddToValue == 0 && c.repeatAddToAddress == 1
            && c.desc == None && c.code == None
            && c.rumbleType == c.rumbleValue == c.rumblePort == 0
            && c.rumblePrimaryStrength == c.rumblePrimaryDuration == 0
            && c.rumbleSecondaryStrength == c.rumbleSecondaryDuration == 0
  {
  }
}
