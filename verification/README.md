# RetroArch: cheat engine, command interface and core backups

A Dafny model of three imperative parts of RetroArch's front end, with proofs of what they are for.

- **The cheat engine** (`cheat_manager.c`). A search keeps a snapshot of the core's memory, which is a list of
  segments, and a packed array of match bits, one group of bits for every slot of 1, 2, 4, 8, 16 or 32 bits. Each search
  drops the slots that do not match. Matches can be viewed, deleted and turned into cheats, and a list of cheats is run
  as a small program that patches the memory: conditions that skip, repeats that step, writes below a byte. Cheat lists
  are saved to and loaded from key-value files.
- **The command interface** (`command.c`). Reduction of an address through a memory-map descriptor, READ and WRITE of
  core memory as text, framing of the command stream from standard input, and the ring of auto-indexed save states.
- **Core backups** (`core_backup.c`). The file name that carries timestamp, checksum and mode, its three readers, and the
  list built from a sorted directory.

How the modules fit together:

| module | what it holds |
|---|---|
| `Wrappers` | the option type |
| `Words`, `Numerals` | 32-bit words and bit operators on naturals; `printf` and `strtoul` conversions |
| `Slots`, `Segments` | slots, items, packed match bits; a segmented memory seen as one flat run of bytes |
| `PlaceValue` | memory as numbers: what every byte of an item weighs, and the slots as digits of the whole memory |
| `SearchSession`, `Cheats`, `Freeze` | the meaning of search sessions, of applying cheats, and of freezing matches |
| `SearchLaws`, `CheatLaws` | the same in plain comparisons and arithmetic: which values survive searches, what each cheat does |
| `Exactness` | where a cheat does other than its type says, and exactly when it does not |
| `CheatEngine`, `CheatFile` | the class `CheatManager` that works on arrays in place; the meaning of cheat files |
| `CheatFileTexts` | cheat files letter by letter |
| `WidthChange` | a search width changed in the middle of a session |
| `MemoryMap`, `StdinFramer`, `SaveStates` | the three algorithms of `command.c` |
| `BackupNames`, `StampOrder`, `BackupList` | printer and parsers of backup names; when they sort as their dates; the list in its array |
| `BackupTexts` | backup names letter by letter: which are accepted, and what the readers make of any name |
| `Scenarios` | whole runs: a search session, a freeze, a new memory map, saving and loading, a series of saves and rescans |

The imperative code is modelled as classes, arrays and loops. Each method is tied to a specification function, and the
properties are proved about that function: `CheatManager.RunSearch` and `DeleteAt` are each one `Step` of
`SearchSession`, `ApplyRetroCheats` is `RunCheats` on the active cheats, `Poll` is `FeedAll`, `ReduceAddress` is
`DropBits`, `LoadCheats` is `LoadEntries`. What those functions mean is stated once more without them, in comparisons,
bits, digits and texts (`SearchVerdicts`, `ConditionMeaning`, `SlotDigit`, `HeldExact`, `StrtoulExact`, `ParseMeaning`
and the like), so that the direction of a comparison, a byte order or a constant is fixed by its effect. Arithmetic is
unsigned 32-bit and wraps where the code's does.

## Where the code differs from what it promises

Each is kept in the model as the code has it, with the exact condition under which it does not happen and an input for
which it does.

- When the core announces a memory map (SET_MEMORY_MAPS, `runloop.c`) after the memory has been initialised, the
  memory is initialised once more without a search: match bits and stored memory stay, and the counter becomes the
  slot count of the new memory. It is right afterwards exactly when that many slots are live (`RecountExact`); for a
  memory of the same size, exactly when no slot had been dropped (`RecountBreaksCount`), and a larger one breaks it
  even then (`LargerMapBreaksCount`). The next search stays inside its buffers exactly when the new memory is no
  larger than they are (`SearchBounds`). On the manager: `SetMemoryMaps`, `PlayThenRemap`. Of the other callers, the
  first active cheat and the list of cheat details initialise only what is not initialised yet, when there is no
  search to harm, and the entry of the search menu starts a new search.
- Left and right on that same entry change the search width and nothing else, so the match bits are read as slots of
  another size with the old counter. Going narrower the counter is right exactly when no slot is live; going wider,
  exactly when no two live slots are merged and none lies where the wider search does not look (`ChangeWidth`,
  `NarrowerExact`, `WiderExact`, `NarrowerBreaksCount`).
- INCREASE and DECREASE of whole items read in the search's byte order and write in the cheat's own. With a repeat
  count of at least one and no later repeat over the item, it changes by the cheat's value exactly when both orders
  read the same number; with a repeat count of zero nothing changes, which is right exactly when the value is zero at
  the item's width (`AdjustExact`, `IncreaseAcrossOrders`). Below a byte they work on the whole byte and write back
  only the bits under the mask: the slot changes by the value exactly when the bits below it and the value together
  carry that much into it, and with a repeat count of zero exactly when the value is zero at the slot's width
  (`AdjustSlotExact`, `UpperNibbleStays`).
- A condition reads in the search's byte order too, and below a byte it compares the whole byte. It decides as it
  would on its own item or slot exactly when its value does not separate the two (`ConditionExact`,
  `ConditionOnWholeByte`).
- A repeat's value is reduced modulo the width mask (255, 65535, 2^32-1), not cut to the width. The two agree exactly
  when what the cut removes is a multiple of the mask and what it leaves is not the mask itself
  (`NextValueWidthExact`, `NextValueSkipsMask`). One step is addition modulo the mask exactly when the 32-bit sum does
  not wrap (`NextValueExact`), and any number of steps exactly when the number of sums that wrapped is a multiple of
  the mask (`ValueExact`).
- A newline-free run of `CMD_BUF_SIZE - 1` bytes is thrown away, so the commands are the lines exactly when every line
  has at most `CMD_BUF_SIZE - 2` bytes (`CommandsAreLines`, `FullLineLost`).
- The file of a save is written by a task, so it may be there before garbage collection looks at the directory or only
  afterwards. In either order at most K files of slots 0 to K stay, from any directory of those slots (`SaveWithin`,
  `LandingWithin`). After saves alone the oldest state is the one deleted, counting the new one as the newest; if the
  files land first, K - 1 stay, and the state just saved is lost exactly when K is one and nothing else was there
  (`LandingFirstSurvival`, `LandingFirstLosesSave`). In any directory of those slots, the new state is lost exactly
  when its file landed first and leaves one free slot, the one before its own (`LandingWithin`), and the state named
  for deletion is the oldest exactly when the slot before that one's is the only free one or, with nothing free, when
  the oldest is in the slot after the current one (`OldestExact`).
- A scan of the directory, which every content load makes, takes the slot before the lowest free one for the last
  save: right exactly when the lowest free slot is the one after it (`RecoveryExact`). After saves alone that fails
  exactly when fewer than K states are left and the last slot is K - 1 (`LandingFirstRecovery`,
  `LandingFirstMisleadsScan`). After such a mistake the next save that lands first is itself deleted
  (`WrongRecoveryLosesSave`, `RescanThenLanding`); in the other order the second save deletes the first one's state,
  the newest there is, and writes over slot 1 (`RescanThenSaves`). Saves made after a mistake can mislead later scans
  in other slots too (`RescanMisledElsewhere`). Over whole runs of saves and scans: up to the first mistake everything
  is as if there had been no scan, and without files that land first there is no mistake (`RingRun`).
- READ computes the size of its reply in 32 bits. The reply fits exactly when that size is at least the prefix, three
  characters a byte and the newline, and so whenever the computation does not wrap (`ReplyFits`); for 1431655766 bytes
  the size is 66 (`ReplySizeWraps`).
- WRITE stores zeros from the first text that is not a number up to the end of the descriptor: it stores the numbers
  and nothing else exactly when the text ends after them or they reach that end (`WriteStopsExact`,
  `TrailingBlankZeroFills`).
- Loading a cheat that had no description gives it its code as one. A cheat comes back unchanged exactly when it keeps
  its place and has a description, or its code is its description (`FileRoundTrip`, `RestoredExact`,
  `CodeBecomesDescription`).
- The comment above the directory sort says alphabetical order is time order. That holds for printed names
  (`PrintedNamesSort`). The parser also takes fields with a sign or blanks, and a file with a signed year sorts before
  all printed ones, also earlier ones (`SignedYearOutOfOrder`). A valid file sorts as its date against every printed
  one exactly when its timestamp is all digits, or digits up to a field from which on everything is zero
  (`FileOrderExact`).
- The reader that splits a backup name finds no checksum when it is zero, and the path reader recovers the core's path
  exactly when the core's file name is one piece, a period and the library extension, and the path fits
  (`CrcReadersAgree`, `ZeroChecksumUnread`, `CorePathRecovered`, `SecondPeriodCutsName`).

## Model

| member | source | states |
|---|---|---|
| Scenarios.PlaySession | cheat_manager.c:852-1260 | Initialise, then any list of searches (each on a new memory, with its own settings) and deletions: the buffers and counter are the abstract state of that session, the match bits are packed, and the counter is the number of live slots |
| SearchLaws.SearchVerdicts | cheat_manager.c:1198-1227 | For each of the nine kinds, the slots live after one search, as a comparison of the slot's value in the memory searched with its stored value or the operand; EQPLUS and EQMINUS modulo 2^32 |
| SearchLaws.LtFalls | cheat_manager.c:1203-1205 | After n LT searches the live slots are those whose value fell every time; each has fallen by at least n |
| SearchLaws.GtRises | cheat_manager.c:1206-1208 | After n GT searches the live slots are those whose value rose every time; each has risen by at least n |
| SearchLaws.EqPlusAdds | cheat_manager.c:1221-1223 | After n EQPLUS searches by d the live slots are those whose value was the start plus i * d, modulo 2^32, after every search i |
| SearchLaws.EqMinusSubtracts | cheat_manager.c:1224-1226 | The same with start less i * d for EQMINUS |
| SearchLaws.LtRunsOut | cheat_manager.c:1203-1205 | As many LT searches as a slot has values leave no match and a counter of zero, for every width |
| Scenarios.PlayFalling | cheat_manager.c:852-1260 | A session of LT searches on the manager: every live slot has fallen by at least their number, and after enough of them the counter is zero |
| SearchLaws.CounterMeaning | cheat_manager.c:1229-1238 | Whatever the counter was, an operation lowers it by the slots dropped and never below zero |
| SearchSession.SessionHistory | cheat_manager.c:1184-1239 | A slot is live after a session exactly when every search matched its value in that search's memory and in the one before, both read in that search's byte order, and no deletion hit it; all six widths |
| SearchSession.SessionMemory | cheat_manager.c:1243-1249 | The stored memory after a session is that of its last search |
| SearchSession.SessionCount | cheat_manager.c:1184-1239 | In every state of every session `num_matches` is the number of live slots |
| SearchSession.RecountExact | runloop.c:2837-2841 | After a re-initialisation without a search, for a memory of any size, the counter is its slot count, and right if and only if that many slots are live; for the same size, if and only if nothing had been dropped |
| SearchSession.LargerMapBreaksCount | cheat_manager.c:987-1031 | A one-byte search with nothing dropped, then a memory of two bytes: the counter is 2 with one live slot |
| SearchSession.RecountBreaksCount | runloop.c:2837-2841 | A one-byte session after which that reset leaves the counter at 1 with no live slot |
| CheatEngine.CheatManager.SetMemoryMaps | runloop.c:2837-2841 | A memory map announced: once the memory is initialised, the segments found are taken, the counter becomes their slot count, match bits and stored memory stay, and the cheats are applied; with no segment found the counter stays; nothing at all before the memory is initialised |
| Scenarios.PlayThenRemap | runloop.c:2837-2841 | A whole session on the manager, then that event with any memory map: the counter is right if and only if the new slot count is the number of live slots; for the same size, if and only if the session dropped no slot |
| WidthChange.WiderExact | menu/menu_setting.c:12851-12858 | Read at a wider width the same match bits never have more live slots, and as many if and only if no live slots are merged and none lies in bytes the wider search does not look at |
| WidthChange.NarrowerExact | menu/menu_setting.c:12851-12858 | Read at a narrower width packed match bits stay packed and have twice as many live slots for every halving |
| WidthChange.ChangeWidth | menu/menu_setting.c:975-984 | The width changed in a session with a right counter: it is still right if and only if, going narrower, no slot is live or, going wider, nothing is merged or overlooked |
| WidthChange.NarrowerBreaksCount | menu/menu_setting.c:975-984 | One live byte narrowed to 4 bits: two slots are live, against a counter of 1 |
| SearchSession.ComplementsDivide | cheat_manager.c:1195-1239 | A search and its complement (LT and GTE, GT and LTE, EQ and NEQ) on the same memories divide the matches between them |
| SearchSession.SurvivorsBijection | cheat_manager.c:1742-1895 | The enumeration of matches is strictly increasing and lists exactly the live slots |
| SearchSession.SurvivorPrefix | cheat_manager.c:1742-1895 | A scan that counts live slots meets the k-th entry of the enumeration when its count is k |
| SearchSession.TargetExact | cheat_manager.c:1729-1731 | With a right counter, index k below it has a slot, the k-th survivor, and any other index has none, also for a counter of zero, where the guard wraps |
| SearchLaws.TargetMeaning | cheat_manager.c:1729-1731 | With any counter, right or wrong: an index has the survivor of that index when there is one and the counter is zero or above it, else none |
| SearchSession.DeleteExact | cheat_manager.c:1820-1835 | DELETE k turns the enumeration into the same one without entry k, and counts one down |
| Slots.StartingCount | cheat_manager.c:987 | The closed form that starts the counter is the number of slots, for every width and size |
| Slots.SearchBounds | cheat_manager.c:1153-1249 | A search over a memory stays inside search buffers of a given length if and only if the memory is no longer than they are |
| Slots.ReadAfterWrite | cheat_manager.c:1619-1648 | Writing an item and reading it in the same byte order gives the value cut to the item's width |
| Slots.WriteAfterRead | cheat_manager.c:1159-1182 | Writing back the value an item reads as stores the bytes that were there |
| PlaceValue.ItemNumber | cheat_manager.c:1157-1182 | An item of 1, 2 or 4 bytes read little-endian is the base-256 number of its bytes, the first one lowest; big-endian, that of the reversed bytes |
| PlaceValue.BytesNumber | cheat_manager.c:1619-1648 | The bytes a value is stored as denote it in the same way, cut to the item's width |
| PlaceValue.SlotDigit | cheat_manager.c:1153-1187 | Slot j of a memory read little-endian is digit j, in base 2^(2^w), of the number the whole memory denotes; all six widths |
| PlaceValue.SlotBigEndian | cheat_manager.c:1157-1187 | Big-endian, slots of 2 and 4 bytes are the numbers of their reversed bytes, and smaller slots are the same |
| CheatLaws.SlotPlace | cheat_manager.c:1748-1800 | Slots stand one after another, 2^w bits each, from the lowest bit of the first byte on, and the mask reported for a slot covers exactly its bits |
| Slots.ClearedGroup | cheat_manager.c:1231-1233 | Clearing one packed group of match bits empties it and keeps every other group of the byte |
| Slots.ClearSlotEffect | cheat_manager.c:1229-1238 | Dropping a slot changes the liveness of no other slot and keeps all groups all ones or all zeros |
| Slots.AllLive | cheat_manager.c:1029 | The 0xFF fill makes every slot live and packed |
| Segments.FlatStore | cheat_manager.c:1619-1672 | A store inside a segment is that store on the flat memory |
| Segments.FlatAt | cheat_manager.c:1243-1249 | Segment i lies in the flat memory right after the segments before it |
| Segments.ItemInSegment | cheat_manager.c:1062-1080 | An aligned item lies inside one segment and reads the same there as in the flat memory |
| CheatEngine.CheatManager.TranslateAddress | cheat_manager.c:1062-1080 | Every address below the total gets the segment that holds it and that segment's offset |
| CheatEngine.CheatManager.ReadItem | cheat_manager.c:1157-1182 | Reading through the translation is reading the flat memory: the number of the item's bytes, the lowest first or, big-endian, last |
| CheatEngine.CheatManager.Snapshot | cheat_manager.c:1243-1249 | The snapshot becomes the concatenation of all segments |
| CheatEngine.CheatManager.InitializeMemory | cheat_manager.c:852-1060 | With no descriptor of RAM with bytes, the core's own block is the memory, or nothing is found and nothing marked; else the segments are the data of exactly those descriptors, in order, without the core's block; the counter; with a search being started, the start state of a session with packed match bits |
| CheatEngine.FoundExact | cheat_manager.c:880-985 | Which segments an initialisation finds, for every list of descriptors and every block of the core, by an increasing map of places |
| CheatEngine.CheatManager.SearchItem | cheat_manager.c:1184-1239 | The inner loop: the slots of one item get the search's verdict, the others keep their state, and the counter goes down once for each slot dropped |
| CheatEngine.CheatManager.RunSearch | cheat_manager.c:1123-1260 | A search is the abstract narrowing step on live slots, stored memory and counter, keeps the bits packed and the core's memory unchanged, and does nothing when no search is initialised |
| CheatEngine.CheatManager.MatchAction | cheat_manager.c:1712-1896 | With a right counter, an index below it acts on that entry of the enumeration: VIEW reports address, mask, stored and current value, COPY appends the slot's code, DELETE drops the slot and counts one down, and each changes nothing else; any other index does nothing |
| CheatEngine.CheatManager.BrowseItem | cheat_manager.c:1729-1779 | BROWSE reports the stored and the current value of the item at any address, aligned or not, that ends inside the segment it starts in |
| CheatEngine.CheatManager.DeleteAt | cheat_manager.c:1906-1919 | DELETE is the abstract deletion step and keeps the bits packed |
| CheatEngine.CheatManager.Realloc | cheat_manager.c:585-675 | Resizing keeps the common front of the list and fills the rest with default entries |
| CheatEngine.CheatManager.AddNewCode | cheat_manager.c:1313-1329 | Appends one entry with the given fields, all others default |
| CheatLaws.FreshFields | cheat_manager.c:585-675 | Every field of an entry made by resizing |
| CheatLaws.MatchCodeFields | cheat_manager.c:1382-1416 | Every field of the code made for a slot: address, mask and value of the slot, SET, off, done once |
| CheatEngine.CheatManager.AddMatches | cheat_manager.c:1331-1426 | Unless the list would pass 100 entries, appends one code for every live slot, in enumeration order, numbered on, and keeps the others |
| CheatEngine.MergeBits | cheat_manager.c:1650-1668 | The bit loop of a sub-byte write is the merge of two bytes under the mask |
| Cheats.MergeByteBits | cheat_manager.c:1650-1668 | That merge takes exactly the mask's bits from the value and the rest from the old byte |
| CheatEngine.CheatManager.WriteAt | cheat_manager.c:1619-1675 | One write through a segment is that write on the flat memory: the item's bytes denote the value cut to its width, in the cheat's byte order; below a byte the masked bits become the value's; no other byte changes |
| CheatEngine.CheatManager.ApplyRepeats | cheat_manager.c:1612-1704 | The repeat loop leaves the memory the specification gives for that many iterations |
| Cheats.NextAddressFits | cheat_manager.c:1696-1701 | Whatever wraps, the next iteration's address is again an aligned item inside the memory |
| CheatEngine.NextIsStep | cheat_manager.c:1677-1701 | The next iteration's value and address, with every wrap and remainder the code takes |
| Cheats.AddressClosedForm | cheat_manager.c:1696-1699 | Barring 32-bit wrap, iteration k writes at (address + k strides) modulo the total |
| Cheats.ValueClosedForm | cheat_manager.c:1677-1680 | While no sum can wrap, iteration k >= 1 writes (start + k additions) modulo the width mask |
| Cheats.NextValueExact | cheat_manager.c:1677-1680 | One value step is addition modulo the mask if and only if the 32-bit sum does not wrap |
| Exactness.ValueWithWraps | cheat_manager.c:1677-1680 | After any number of steps the value is (start + additions - number of wrapped sums) modulo the width mask |
| Exactness.ValueExact | cheat_manager.c:1677-1680 | After any number of steps, at least one, the value is (start + additions) modulo the width mask if and only if the number of wrapped sums is a multiple of the mask |
| Exactness.NextValueWidthExact | cheat_manager.c:1677-1680 | One value step is the sum cut to the cheat's width if and only if what the cut removes is a multiple of the mask and what it leaves is not the mask |
| Exactness.NextValueSkipsMask | cheat_manager.c:1677-1680 | An 8-bit repeat that adds one steps from 254 to 0 |
| Cheats.RepeatBytes | cheat_manager.c:1617-1702 | After the repeats every byte holds what the last write over it stored, and a byte no write covers is unchanged |
| Exactness.ItemAfterRepeats | cheat_manager.c:1617-1702 | After any number of repeats an item holds what the last repeat over it wrote, cut to the width, or its old value |
| Exactness.AdjustExact | cheat_manager.c:1560-1590 | INCREASE and DECREASE of 8-, 16- and 32-bit items, any repeat count: what the item holds; with no later repeat over it, it changed by the value if and only if both byte orders read the same number |
| Exactness.AdjustSlotExact | cheat_manager.c:1580-1668 | INCREASE and DECREASE of 1-, 2- and 4-bit slots: the slot changed by the value if and only if the bits below it and the value carry that much into it; no other slot of the byte changes |
| Exactness.AdjustByteExact | cheat_manager.c:1650-1668 | With any mask, the byte becomes the byte's sum if and only if the sum leaves the bits outside the mask alone |
| Exactness.UpperNibbleStays | cheat_manager.c:1580-1668 | A 4-bit INCREASE by one of the upper half of 0x10 leaves 0x10 |
| Exactness.IncreaseAcrossOrders | cheat_manager.c:1560-1590 | A 16-bit big-endian 0x0100 becomes 2 when increased by 1 under a little-endian search |
| Exactness.ConditionExact | cheat_manager.c:1560-1609 | A condition decides as on its own item or slot if and only if its value does not separate that from what it reads |
| Exactness.ConditionOnWholeByte | cheat_manager.c:1560-1609 | RUN_NEXT_IF_EQ with 1 on the upper half of 0x10 skips although that half is 1 |
| CheatEngine.CheatManager.ApplyCheat | cheat_manager.c:1554-1675 | One active cheat: the memory it leaves, and whether the next one runs: type 4 if its value equals the item, 5 if not, 6 if it is below, 7 if above, other types always; only types 1 to 3 write |
| CheatLaws.ConditionMeaning | cheat_manager.c:1594-1609 | A list that starts with a condition and another cheat: by type, when the other cheat runs, as a comparison of the condition's value with the item read, and that otherwise exactly it is dropped |
| CheatLaws.OtherTypesIdle | cheat_manager.c:1580-1611 | A cheat of a type outside 1 to 7 neither writes nor skips |
| CheatLaws.WritesThenRuns | cheat_manager.c:1580-1611 | A cheat that writes never skips the next one |
| CheatLaws.WholeItemSet | cheat_manager.c:1582-1593 | SET, INCREASE and DECREASE of whole items, done once: the item becomes the value, the item read plus it or less it, cut to the width; no other byte changes |
| CheatLaws.MaskedBitsSet | cheat_manager.c:1650-1668 | The same below a byte: the bits under the mask become those of the result on the byte, the others stay |
| CheatLaws.NoRepeatNoChange | cheat_manager.c:1612-1618 | With a repeat count of zero nothing changes |
| CheatLaws.TakesPart | cheat_manager.c:1538-1539 | A cheat takes part if and only if its handler is 1 and it is on |
| CheatEngine.CheatManager.ApplyRetroCheats | cheat_manager.c:1512-1710 | The loop with its flag is the recursive interpreter on the active cheats, on initialised memory or on what the first active cheat's initialisation finds; with no active cheat nothing changes |
| Cheats.ConditionDropsNext | cheat_manager.c:1548-1552 | A condition changes no memory; a failed one drops exactly the next active cheat, even another condition |
| Cheats.InactiveIgnored | cheat_manager.c:1538-1539 | A cheat that is off or belongs to the core changes nothing and does not use up a failed condition |
| Freeze.MergedSubValue | cheat_manager.c:1650-1668 | A write through one slot's mask replaces that slot's value and keeps the others of the byte |
| Freeze.FreezeOne | cheat_manager.c:1382-1416 | The code of one slot, applied to any memory, gives that slot its copied value and changes no other slot |
| Freeze.FreezeMatches | cheat_manager.c:1331-1426 | The enabled codes of all matches, applied to any later memory, restore every live slot's value and leave every other slot alone; all six widths, both byte orders |
| Freeze.SlotsCoverMemory | cheat_manager.c:1082-1121 | The slots cover the memory: equal slot values mean equal memories |
| Scenarios.FreezeRun | cheat_manager.c:1331-1710 | The same on the manager itself: add matches, enable them, change the memory at will, apply the cheats |
| CheatFile.SuffixNamed | cheat_manager.c:444-509 | The loader recognises every field name a save writes, as that field |
| CheatFile.KeyTarget | cheat_manager.c:444-466 | A saved key leads back to its cheat number and field, for all numbers and offsets: the keys are injective |
| CheatFileTexts.SavedTexts | cheat_manager.c:194-226 | The count, flags, description and code a save writes, with their keys spelled out |
| CheatFileTexts.SavedTarget | cheat_manager.c:156-172 | The keys and numbers written for handler, size and type |
| CheatFileTexts.SavedWrite | cheat_manager.c:156-172 | The keys and numbers written for value, address and mask |
| CheatFileTexts.SavedRepeat | cheat_manager.c:156-172 | The keys and numbers written for the repeats |
| CheatFileTexts.SavedRumble | cheat_manager.c:156-172 | The keys and numbers written for the rumble's trigger |
| CheatFileTexts.SavedPrimaryRumble | cheat_manager.c:156-172 | The keys and numbers written for the primary rumble |
| CheatFileTexts.SavedSecondaryRumble | cheat_manager.c:156-172 | The keys and numbers written for the secondary rumble |
| CheatFileTexts.LoadedNumber | cheat_manager.c:467-509 | An entry with a number changes one cheat, at its number and the offset |
| CheatFileTexts.LoadedTarget | cheat_manager.c:467-509 | The field each key sets, spelled out: handler, size and type |
| CheatFileTexts.LoadedWrite | cheat_manager.c:467-509 | Value, address and mask |
| CheatFileTexts.LoadedRepeat | cheat_manager.c:467-509 | The repeats |
| CheatFileTexts.LoadedRumble | cheat_manager.c:467-509 | The rumble's trigger |
| CheatFileTexts.LoadedPrimaryRumble | cheat_manager.c:467-509 | The primary rumble |
| CheatFileTexts.LoadedSecondaryRumble | cheat_manager.c:467-509 | The secondary rumble |
| CheatFileTexts.LoadedTexts | cheat_manager.c:467-509 | Description and code are taken as they are; a flag is on for "true" and "1" alone |
| CheatFileTexts.EntriesInOrder | cheat_manager.c:444-510 | Entries act in file order, so of two for one field the later stays |
| CheatFileTexts.CountEntries | cheat_manager.c:429-442 | The last count entry is the one that counts |
| CheatFileTexts.BlankFields | cheat_manager.c:553-572 | Every field of the entry a load starts from |
| CheatFile.NumberReads | cheat_manager.c:467-509 | A number printed in decimal reads back, although the loader lets the text choose the base |
| CheatFileTexts.AnyNumberReads | cheat_manager.c:436-441 | A decimal number of any size: a field takes it modulo 2^32, or 2^32 - 1 beyond 64 bits; a count beyond 64 bits is zero |
| CheatFileTexts.PrefixedNumberReads | cheat_manager.c:467-509 | Hexadecimal and octal numbers are read by their prefix |
| CheatFile.SetGet | cheat_manager.c:466-509 | An entry changes its own field and no other |
| CheatFile.LoadedSave | cheat_manager.c:444-510 | What every field of every entry holds after loading a saved file at an offset |
| CheatFile.FileRoundTrip | cheat_manager.c:202-583 | Loading a saved list, in any entry order, onto earlier cheats: those stay as they were, and every saved cheat comes back after them with all its fields |
| CheatFile.RestoredExact | cheat_manager.c:202-583 | A cheat comes back unchanged if and only if it keeps its place and has a description, or its code is its description |
| CheatFile.CodeBecomesDescription | cheat_manager.c:213-218 | A cheat with a code and no description comes back with that code as its description |
| CheatEngine.CheatManager.SaveCheats | cheat_manager.c:143-261 | The entries a save writes, or none for an empty list |
| CheatEngine.CheatManager.LoadFirstPass | cheat_manager.c:429-442 | The count is taken from the `cheats` entry, zero when out of range |
| CheatEngine.CheatManager.LoadSecondPass | cheat_manager.c:444-510 | One entry sets at most one field of one cheat in range, otherwise nothing |
| CheatEngine.CheatManager.LoadCheats | cheat_manager.c:512-583 | A load is the second pass over blank entries after the kept ones; a missing file or a count of zero changes nothing |
| Scenarios.FileRun | cheat_manager.c:143-583 | Saving one manager's list and loading it into a manager, replacing or appending |
| MemoryMap.ReduceAddress | command.c:1041-1046 | The bit-compaction loop ends and computes the bit-dropping function |
| MemoryMap.PassKeepsResult | command.c:1043-1045 | One pass keeps the final result and makes the mask smaller |
| MemoryMap.KeptBit | command.c:1038-1046 | Every bit outside the mask survives, moved down by the number of mask bits below it |
| MemoryMap.ReductionKernel | command.c:1038-1046 | Two offsets reduce to the same result if and only if they agree on the bits outside the mask |
| MemoryMap.ReductionInjective | command.c:1038-1046 | On offsets that agree on the masked bits the reduction is injective |
| MemoryMap.OffsetInside | command.c:1018-1053 | An offset found is below its descriptor's length, also when start + len wraps |
| MemoryMap.GetDescriptor | command.c:1011-1059 | The first descriptor that holds the address, and the offset in it, bit by bit: with a select mask the selected bits agree, every bit of address - start outside the disconnect mask stands at its place less the mask bits below it, nothing stands above, and the offset is below the length; without one, plain subtraction in range; every earlier descriptor fails one of these |
| MemoryMap.HeldExact | command.c:1018-1053 | A descriptor holds an address at an offset if and only if those conditions hold |
| MemoryMap.SameByteExact | command.c:1018-1053 | Two addresses of one descriptor with a select mask lead to the same byte if and only if they agree, counted from the start, outside the disconnect mask |
| MemoryMap.ReducedExact | command.c:1038-1046 | A number has those bits at those places and nothing above if and only if it is the result of the reduction |
| MemoryMap.DisconnectedBit | command.c:1032-1049 | With bit 1 disconnected address 4 has offset 2 |
| MemoryMap.PointerInside | command.c:1061-1087 | A pointer given lies in the first descriptor that holds the address; the bytes it allows are inside that descriptor, and all that are left below 4 GiB |
| MemoryMap.GetPointer | command.c:1061-1087 | The pointer with what is left of the descriptor modulo 2^32, or which of the four error messages, in the order the code tests for them |
| MemoryMap.ReadMemory | command.c:1182-1205 | READ prints the bytes from the address, as many as asked for and no more than the descriptor has, or the error message |
| MemoryMap.HexTextLayout | command.c:1197-1201 | The text of READ, character by character: a space and two upper-case digits for every byte, in order |
| MemoryMap.WriteMemory | command.c:1209-1247 | WRITE changes exactly the bytes it parsed, inside the descriptor, and nothing else; never a read-only descriptor |
| MemoryMap.WriteOfList | command.c:1226-1231 | WRITE of a well-formed list stores the low bytes of the first max_bytes numbers |
| MemoryMap.ReadWriteRoundTrip | command.c:1197-1231 | Giving WRITE the bytes READ printed stores those bytes, as many as fit; with the reply's newline, zeros follow |
| MemoryMap.WriteExact | command.c:1226-1231 | What WRITE stores for every text: its numbers, cut at the limit, and zeros to the limit when the text does not end after them |
| MemoryMap.WriteStopsExact | command.c:1226-1231 | WRITE stores the numbers and nothing else if and only if the text ends after them or they reach the limit; how many bytes it stores |
| MemoryMap.TrailingBlankZeroFills | command.c:1226-1231 | " 12 " stores 0x12 and then zeros to the limit |
| MemoryMap.NoNumberZeroFills | command.c:1226-1231 | Text without a number at its start is stored as zeros to the limit |
| MemoryMap.ReadCommand | command.c:1161-1207 | The whole READ command: which arguments are refused, and the reply |
| MemoryMap.ReplyFits | command.c:1180-1201 | A reply with the bytes read fits the size computed for it if and only if that size is at least the prefix, three characters a byte and the newline, and whenever 64 + 3 * nbytes does not wrap |
| MemoryMap.ReplySizeWraps | command.c:1180-1201 | For a request of 1431655766 bytes the size is 66, too little for a reply of 16 bytes |
| MemoryMap.WriteCommand | command.c:1209-1247 | The whole WRITE command: the bytes changed, the reply, and that nothing else changes |
| MemoryMap.ReadChangeRestore | command.c:1161-1247 | READ, any change of the buffer, WRITE of the bytes printed: those bytes are restored and the others stay changed |
| StdinFramer.CommandsAreLines | command.c:323-361 | The commands are the non-empty lines if and only if every line has at most CMD_BUF_SIZE - 2 bytes |
| StdinFramer.FullLineLost | command.c:337-347 | A line of CMD_BUF_SIZE - 1 bytes is not dispatched |
| StdinFramer.CommandsInOrder | command.c:323-361 | Non-empty commands of at most 4094 bytes, each with its newline, are dispatched in the order sent, and the rest is held |
| StdinFramer.LongLineCut | command.c:337-347 | Of any line the full blocks of 4095 bytes are thrown away and what is left is dispatched |
| StdinFramer.SplitExact | command.c:323-361 | Every stream is its lines, each with its newline, and the unfinished one |
| StdinFramer.LinesOfJoined | command.c:323-361 | Any list of lines is what the stream made of them splits into |
| StdinFramer.FeedMeaning | command.c:323-361 | What a byte-at-a-time framer holds and has dispatched, for every stream |
| StdinFramer.FeedAppend | command.c:323-361 | Framing does not depend on where the stream is cut |
| StdinFramer.PollNoNewline | command.c:337-347 | A poll without a newline is byte-wise framing: all stays pending, or a full buffer is dropped |
| StdinFramer.PollNewline | command.c:348-359 | A poll with a newline is byte-wise framing: the lines before the last newline go out, the rest is held |
| StdinFramer.StdinCommand.ParseMsg | command.c:169-179 | Splitting the buffer in place dispatches the non-empty pieces between newlines, in order |
| StdinFramer.StdinCommand.Poll | command.c:323-361 | A poll with any chunk keeps the buffer and the dispatched commands what the stream received so far asks for |
| StdinFramer.StdinCommand.StreamMeaning | command.c:323-361 | In every reachable state the next read asks for at least one byte, the buffer holds the unfinished line, and the commands are those of the stream |
| SaveStates.ScanStates | command.c:1621-1810 | Bitmaps and loops find the lowest free slot, the first occupied one after it, the counts and the maximum, and the load and delete index follow from those, in any listing order |
| SaveStates.ScanOfRing | command.c:1717-1806 | On the ring, in any listing order and with any current slot set, the scan finds the last save and names the slot two after it for deletion |
| SaveStates.ScanOfFullRange | command.c:1754-1782 | With 0..K all occupied the slot after the current one is named |
| SaveStates.OldestGoes | command.c:1863-1885 | The file removed is the oldest save, and save order is kept |
| SaveStates.AfterSaveMembers | command.c:1863-1885 | What is there after a save: the new slot and all others but the one named |
| SaveStates.WithoutOrder | command.c:1863-1885 | Removing a file keeps the order of the others |
| SaveStates.RingStep | command.c:1820-1830 | A save keeps the ring's shape |
| SaveStates.RejoinRing | command.c:1754-1782 | One save from a full range is in the ring again |
| SaveStates.SaveStateRing.SetAutoIndex | command.c:1838-1858 | A scan of the directory alone, in any listing order: in any directory within the limit, the slot before the lowest free one; after a run of saves that is the last save's, except when fewer than K states are left and it is K - 1; without auto-indexing or a readable directory the slot is 0 |
| SaveStates.SaveStateRing.Save | command.c:1820-1885 | A save whose scan runs before its file lands: the slot it takes, and the file its scan names removed, from any directory; within the limit, at most K files with the new one; after a run of saves, the oldest removed when the ring is full, save order kept; a full range rejoins the ring |
| SaveStates.SaveStateRing.SaveLandingFirst | command.c:1820-1885 | A save whose file lands before its scan: the same, and exactly when the new state is lost; after a run of saves, shape and order kept and the oldest removed |
| SaveStates.LandingFirstSurvival | command.c:2354-2361 | After a run of saves, the state just saved is lost if and only if K is one, its file landed first and nothing else was there |
| SaveStates.LandingFirstRecovery | command.c:1838-1858 | After any run of saves a scan recovers the last slot if and only if not both fewer than K states are left and the slot is K - 1 |
| SaveStates.LandingFirstMisleadsScan | command.c:1717-1797 | With K = 2 and only slot 1 left, the scan takes slot 2 for the last save |
| SaveStates.WrongRecoveryLosesSave | command.c:1717-1806 | After that wrong recovery, for every K, the next save whose file lands first is deleted |
| SaveStates.LandedOldest | command.c:1717-1806 | In save order, the file a scan names once the new one has landed is the oldest |
| SaveStates.RecoveryExact | command.c:1838-1858 | In any directory of at most K slots within the limit, a scan gives the slot of the last save if and only if the lowest free slot is the one after it |
| SaveStates.ScanWithin | command.c:1717-1806 | What a scan of any directory within the limit takes for the last save and what it names for deletion, from the free slots alone |
| SaveStates.ScanOfNone | command.c:1717-1797 | A scan of any directory without a slot of 0..K: the highest slot there, or K; nothing named |
| SaveStates.ScanWithGap | command.c:1717-1797 | With a free and a taken slot in 0..K, whatever lies above: the slot before the lowest free one, and the one after it named if it is the only free one |
| SaveStates.ScanWithoutGap | command.c:1717-1797 | With 0..K all taken: the highest slot and slot 1 if there is one above, else the current slot and the one after it |
| SaveStates.SaveWithin | command.c:1820-1885 | From any directory within the limit a save that scans first leaves at most K files, the new one among them |
| SaveStates.LandingWithin | command.c:2354-2361 | From any directory within the limit a save that lands first leaves at most K files, and its own is lost if and only if one slot is then free, the one before it |
| SaveStates.OldestExact | command.c:1863-1885 | The file named for deletion is the oldest if and only if the only free slot is the one before the oldest or, with none free, the oldest is in the slot after the current one |
| SaveStates.RescanThenLanding | runloop.c:4321 | After any run of saves, a content load and then a save that lands first: the new state survives if and only if the scan was right and K is two or more or another state is there |
| SaveStates.RescanThenSaves | runloop.c:4321 | After a mistaken scan, for every K of two or more, two saves that scan first: the second deletes the first one's state and overwrites slot 1 |
| SaveStates.RescanMisledElsewhere | command.c:1838-1858 | With K = 3, after a mistaken scan from slots 1 and 2 two saves that scan first leave slots 2 and 1, slot 1 the last, and the next scan gives 3 |
| Scenarios.SaveRun | retroarch.c:3658-3668 | After n saves from an empty directory, listed in any order at every save, the files are those of the last min(n, K) saves, each in slot (number of its save - 1) mod (K + 1), oldest first |
| Scenarios.SaveRunAnyOrder | retroarch.c:3658-3668 | The same with each file landing before or after its scan: at most K files and at least the last min(n, K - 1), exactly that many when all land first, consecutive and ending at the slot |
| Scenarios.RingRun | runloop.c:4321 | Any interleaving of saves in either order and scans, from an empty directory: at most K files within the limit; up to the first mistaken scan the state is that of the saves alone; which scans are mistaken; and none when no file lands first, when the last min(n, K) states stay |
| SaveStates.LandingFirstLosesSave | command.c:2354-2361 | With K = 1 and only the new file there, the scan names it for deletion |
| SaveStates.UnlimitedRecovery | command.c:1737-1797 | With no limit the scan recovers the highest slot there is |
| Numerals.ValueOfDigits | core_backup.c:143-154 | Printing in base 8, 10 or 16 and reading back gives the number, with no leading zero |
| Numerals.PaddedWidth | core_backup.c:143-154 | A padded field has exactly its width when the number fits |
| Numerals.ParseDigits | core_backup.c:417-516 | A run of digits after white space is read to its end as the number it denotes |
| Numerals.StrtoulExact | core_backup.c:417-516 | `strtoul` on white space, sign, prefix, digits and what follows: base, end, value, saturation and negation in 64 bits, and when it is out of range |
| Numerals.NoDigitNoNumber | core_backup.c:417-516 | Text without a digit where a number should be: nothing is consumed |
| Numerals.DigitTexts | core_backup.c:143-154 | The digits as characters, both cases, and what they read as |
| Numerals.DigitsCase | core_backup.c:143-154 | A printed number has letters of one case |
| BackupNames.NameRoundTrip | core_backup.c:365-525 | Parsing a printed name gives back date, checksum and mode, for every core name |
| BackupTexts.NameText | core_backup.c:143-154 | A whole printed name, letter by letter |
| BackupTexts.ParseMeaning | core_backup.c:365-525 | A name made of core, metadata and extension is accepted as a backup if and only if each field is read to its end at its place, with the periods and the T between |
| BackupTexts.ParsedForm | core_backup.c:365-525 | Only names of that form are accepted |
| StampOrder.PrintedNamesSort | core_backup.c:577-579 | For one core, printed names of different dates sort if and only if their dates do |
| StampOrder.OrderlyTexts | core_backup.c:577-579 | Any two accepted timestamps that are orderly (digits, up to where all is zero) sort as their dates |
| StampOrder.StampExact | core_backup.c:417-489 | An accepted timestamp sorts as its date against every printed one if and only if it is orderly |
| BackupNames.NameTokens | core_backup.c:164-216 | Splitting a printed name at its periods gives the core's pieces and four more |
| BackupNames.TokensJoin | core_backup.c:189-203 | Splitting at a period splits the pieces |
| BackupNames.OneToken | core_backup.c:189-203 | Text without a period is one piece |
| BackupTexts.EqualNoCaseExact | core_backup.c:178-210 | Extensions are equal if and only if they are letter by letter but for case |
| BackupTexts.CaseOrder | core_backup.c:577-579 | Names sort by the first letters that differ, as lower-case letters |
| BackupTexts.PrefixFirst | core_backup.c:577-579 | A text sorts before its continuations |
| BackupTexts.TypeMeaning | core_backup.c:164-216 | The kind of backup any name with a period denotes |
| BackupTexts.NoPeriodInvalid | core_backup.c:164-216 | A name without a period denotes none |
| BackupTexts.ChecksumReads | core_backup.c:219-292 | What the split reader takes a checksum text for |
| BackupTexts.CoreNameMeaning | core_backup.c:317-337 | The path reader takes the text up to the second period of an archive's name, and nothing of another |
| BackupNames.NameType | core_backup.c:164-216 | A printed name counts as an archive if and only if the core's name has two pieces, the second the library extension |
| BackupNames.CrcReadersAgree | core_backup.c:219-292 | The checksum from the split name is the list parser's exactly when the name counts as an archive and the checksum is not zero, and otherwise there is none |
| BackupNames.ZeroChecksumUnread | core_backup.c:219-292 | From a name with checksum zero the split reader takes none, though the parser reads it |
| BackupNames.SecondPeriodCutsName | core_backup.c:317-337 | From a backup of "a.so." the path reader takes "a.so" |
| BackupNames.CoreNameRecovered | core_backup.c:317-337 | The path reader recovers the core's file name if and only if it has two pieces, the second the library extension, and a single period |
| BackupNames.CorePathRecovered | core_backup.c:303-357 | The core's path comes back if and only if that holds, a directory is given and the path fits the buffer |
| BackupList.List.FillDate | core_backup.c:417-489 | The six date fields are read into the entry past the end, and the listed entries do not change |
| BackupList.List.AddEntry | core_backup.c:365-525 | An entry is added exactly when there is room and the name is valid, with the parsed values |
| BackupList.ListInit | core_backup.c:531-623 | The list holds exactly the valid entries in listing order within its capacity, or there is none |
| BackupTexts.OneFile | core_backup.c:531-623 | The entry of one file, by the name after the last slash |
| BackupTexts.EntriesInOrder | core_backup.c:531-623 | Entries are listed in the order of their files |
| BackupList.ListInTimeOrder | core_backup.c:577-579 | A list from a sorted listing of names with orderly timestamps runs from the oldest backup to the newest |
| BackupList.FileOrderExact | core_backup.c:577-579 | A file the list accepts sorts as its date against every printed file of its core if and only if its timestamp is orderly |
| BackupList.PrintedEntry | core_backup.c:143-154 | Every printed file is listed as its backup, with an orderly timestamp |
| BackupList.SignedYearOutOfOrder | core_backup.c:577-579 | Of two complete file names the list accepts, one with a signed year and a printed one of an earlier year, the later sorts first |

## Left out

Assumed of the memory and the cheats:

- The total memory size times 8 fits in 32 bits, and every descriptor's length fits in a word.
- For 16- and 32-bit slots every segment length is a multiple of the item size; at a ragged end the code reads past the segment.
- Segments are distinct buffers: two descriptors that share memory are not modelled.
- A search runs on buffers as long as the current segments; after a memory map of another size the counter, the buffers and the bounds of the next search are stated, and no search is run.
- Active cheats address an aligned item inside the memory and have a search size of at most 5; for larger sizes the code keeps the previous cheat's settings.
- `repeat_count` is below 2^32 - 1 (at that value the loop never ends), and at most 1 for cheats below a byte: there the mask is overwritten in the bit loop and then used as a shift count.
- Bit operators are functions on naturals; operands are non-negative and results are cut to a byte or word where the code's are.

Weaker than the code allows, by member:

- CheatEngine.CheatManager.ApplyRepeats: repeats below a byte after the first, and a repeat count at which the loop never ends (see above).
- CheatEngine.CheatManager.BrowseItem: the item must end inside the segment it starts in; otherwise the code reads past that segment.
- CheatEngine.CheatManager.SaveCheats: always into a fresh file, as with overwrite set. Without it the config library appends a second entry for every key, sorts, and reads the first of each; that library is not modelled. The count is printed as unsigned, so lists of 2^31 entries and more are not modelled.
- CheatEngine.CheatManager.LoadCheats: kept plus loaded cheats stay below 2^32. An empty list and an absent one load alike.
- Scenarios.FileRun: through SaveCheats, so always into a fresh file.
- SaveStates.ScanStates: takes the slot numbers found; decoding them from file names is left out.
- SaveStates.SaveStateRing.Save: limits 1..1023, as for SetAutoIndex and SaveLandingFirst; that at most K files stay is stated for directories without slots above the limit; saving itself (`content_save_state` in `tasks/task_save.c`) queues a task, and of that only whether its file lands before or after the scan is modelled.
- StdinFramer.StdinCommand.Poll: streams without NUL bytes, and reads that do not fail.
- MemoryMap.ReadCommand: the reply as text, whatever size was computed for it; when that size holds it is `ReplyFits`.
- BackupNames.CorePathRecovered: a backup that is itself a library file, whose checksum is read from the file, is left out.
- BackupList.ListInit: paths with `/` as the only separator and no archive delimiter.

Not modelled:

- Failing allocation, and the ownership of strings and buffers.
- Messages, logging, menu flags, achievements, thumbnails and rumble motors (the rumble fields of a cheat are saved and loaded).
- EMU cheats, working copies of a cheat, toggling and stepping through the list: single assignments.
- The config-file syntax: a file is a list of keys and values, in any order.
- Directory listing and path joining: a directory is a list of slot numbers, or of paths.
- `strtoul` with an `unsigned long` other than 64 bits.
- Network, UDP and UNIX-domain command interfaces, and the command table.
- The configuration tables, and the replay slots, which repeat the save-state rules without the ring.
