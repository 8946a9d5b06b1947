# HelenOS core pieces in Dafny

A Dafny model of eight pieces of the HelenOS operating system, each
with the properties its code promises proved about it. There is one
module per source file:

- `PageArmv6` (`page_armv6.dfy`): the ARMv6/ARMv7 page-table entries.
  - It covers both short-descriptor layouts (section B3.5.1 of the ARMv7-A/R Architecture Reference Manual): a level-0 coarse-table pointer and a level-1 small page.
  - It models the `PTE_*_ARCH` queries, and the flag getters and setters that translate HelenOS page flags into these entries and back.
  - The `PAGE_*_SHIFT` positions are defined outside this header, so they are a `Shifts` parameter.
  - `HelenShifts` gives the values HelenOS uses.
  - An entry word is a number below 2^32. Its fields are read and written by division and multiplication by powers of two, in the bit order the packed structures declare.
- `BootArm32` (`boot_arm32.dfy`): `bootstrap` of the ARM32 boot loader.
  - It places the components at page-aligned destinations and fills the task map.
  - It checks each compressed image against its destination, and inflates the components from the last to the first.
  - `inflate` answers through an input. Cache maintenance, the MMU start and the jump to the kernel are recorded as events of a trace.
- `Macros` (`macros.dfy`): the kernel's generic helpers.
  - The interval tests `overlaps` and `iswithin` use word arithmetic with wrap-around.
  - Also covered: `min`/`max`, the 32-bit split and merge, the size conversions, the `RANDI` generator and the character classes.
  - The word size (32 or 64 bits) is a parameter.
- `Elf32` (`elf32.dfy`): the ELF32 vocabulary (Tool Interface Standard ELF 1.2).
  - It covers the identification, the segment types and the loader result codes.
  - It covers the header, program-header, section-header and symbol records. Each is encoded to and decoded from bytes in either byte order.
- `Pci` (`pci.dfy`): the PCI driver `pciintel`.
  - It covers the configuration address (Configuration Mechanism #1, section 3.2.2.3.2 of the PCI Local Bus Specification 3.0) and configuration reads.
  - It covers base address register decoding and sizing (section 6.2.5.1), the bounded hardware-resource list, the interrupt line and the bus scan.
  - Configuration space is an input, as a function from location and register to byte.
- `HashIterators` (`hash_iterators.dfy`): the global and local iterators of the C++ library's hash table.
  - A bucket is a sequence of values read from its head.
  - A node is a bucket index with a position in that bucket.
- `HashPolicies` (`hash_policies.dfy`): the single-key and multi-key policies of that hash table.
  - It covers `count`, `find_insertion_spot`, `erase`, `insert`/`emplace` and `equal_range`.
  - They work on a `HashTable` class whose bucket array and size are updated in place.
  - Hashing is a bucket index computed from the key.
  - Key equality is Dafny equality of the keys a `keyOf` function extracts.
- `Graph` (`graph.dfy`): the graphics library's registries of visualizers and renderers, and each visualizer's mode state under `vs_set_mode`, `vs_yield` and the mode queries.
  - The location service, IPC and the driver's operations answer through inputs.

`Wrappers` (`wrappers.dfy`) holds the `Option` type. `Powers` (`powers.dfy`) holds powers of two.

## Model

| member | source | states |
|---|---|---|
| Macros.AddWord | kernel/generic/include/macros.h:54-55 | an address-plus-size sum is a machine word and equals the true sum when that fits in the word |
| Macros.Overlaps | kernel/generic/include/macros.h:43-58 | when neither end wraps, `overlaps` holds iff each interval starts before the other ends |
| Macros.OverlapsSymmetric | kernel/generic/include/macros.h:51-58 | `overlaps` gives the same answer with the two intervals swapped |
| Macros.OverlapsMeaning | kernel/generic/include/macros.h:43-58 | without wrap-around, two non-empty intervals overlap iff some address lies in both |
| Macros.IsWithin | kernel/generic/include/macros.h:60-75 | a true answer means the second interval starts no earlier; without wrap-around `iswithin` holds iff the second interval starts no earlier and ends no later than the first |
| Macros.IsWithinMeaning | kernel/generic/include/macros.h:60-75 | without wrap-around, a non-empty interval is within another iff every one of its addresses is in the other |
| Macros.IsWithinReflexive | kernel/generic/include/macros.h:68-75 | every interval is within itself, even one whose end wraps |
| Macros.IsWithinOverlaps | kernel/generic/include/macros.h:51-75 | without wrap-around, a non-empty interval within another also overlaps it |
| Macros.Min | kernel/generic/include/macros.h:87 | `min` is at most both arguments and is one of them |
| Macros.Max | kernel/generic/include/macros.h:88 | `max` is at least both arguments and is one of them |
| Macros.Min3 | kernel/generic/include/macros.h:90 | `min3` is at most all three arguments and is one of them |
| Macros.Max3 | kernel/generic/include/macros.h:91 | `max3` is at least all three arguments and is one of them |
| Macros.Lower32 | kernel/generic/include/macros.h:106 | `LOWER32` is a 32-bit value |
| Macros.Upper32 | kernel/generic/include/macros.h:107 | `UPPER32` is a 32-bit value |
| Macros.MergeLoUp32 | kernel/generic/include/macros.h:109-111 | `MERGE_LOUP32` is a 64-bit value |
| Macros.MergeSplit | kernel/generic/include/macros.h:106-111 | merging the lower and upper halves of a 64-bit value gives the value back |
| Macros.SplitMerge | kernel/generic/include/macros.h:106-111 | the halves of a merge of two 32-bit values are those values |
| Macros.Size2Kb | kernel/generic/include/macros.h:97 | `SIZE2KB` is the number of whole KiB in the size (floor division by 1024) |
| Macros.Size2Mb | kernel/generic/include/macros.h:98 | `SIZE2MB` is the number of whole MiB in the size |
| Macros.Kb2Size | kernel/generic/include/macros.h:100 | `KB2SIZE` is a word, equal to `kb * 1024` when that fits |
| Macros.Mb2Size | kernel/generic/include/macros.h:101 | `MB2SIZE` is a word, equal to `mb * 2^20` when that fits |
| Macros.KbRoundTrip | kernel/generic/include/macros.h:97-100 | `SIZE2KB(KB2SIZE(kb)) == kb` when the size fits in a word |
| Macros.MbRoundTrip | kernel/generic/include/macros.h:98-101 | `SIZE2MB(MB2SIZE(mb)) == mb` when the size fits in a word |
| Macros.Randi | kernel/generic/include/macros.h:113-123 | the next seed of the linear congruential generator is a word (modulus 2^32 or 2^64) |
| Macros.InverseMultiplier | kernel/generic/include/macros.h:113-123 | the generator's multiplier 1103515245 has a multiplicative inverse modulo the word size |
| Macros.RandiPrevious | kernel/generic/include/macros.h:119-123 | the step back from a seed is a word |
| Macros.RandiInvertible | kernel/generic/include/macros.h:113-123 | every word seed is recovered from its successor, so the generator permutes the words |
| Macros.CharClasses | kernel/generic/include/macros.h:79-85 | `isdigit`, `islower`, `isupper` and `isspace` accept exactly the listed characters |
| Macros.CharClassesDisjoint | kernel/generic/include/macros.h:79-85 | digits, lower-case and upper-case letters are disjoint classes and white space is in none of them |
| PageArmv6.Level0Codec | kernel/arch/arm32/include/arch/mm/page_armv6.h:57-73 | reading an entry word through the `pte_level0_t` bit-field view and storing the fields back gives the same word |
| PageArmv6.Level1Codec | kernel/arch/arm32/include/arch/mm/page_armv6.h:75-88 | the same for the `pte_level1_t` view |
| PageArmv6.Level0Decode | kernel/arch/arm32/include/arch/mm/page_armv6.h:57-73 | storing a level-0 descriptor's fields into a word and reading them back gives the descriptor |
| PageArmv6.Level1Decode | kernel/arch/arm32/include/arch/mm/page_armv6.h:75-88 | the same for a level-1 descriptor |
| PageArmv6.SharedDescriptorType | kernel/arch/arm32/include/arch/mm/page_armv6.h:58-60 | both views of the `pte_t` union place `descriptor_type` in the same two low bits (also lines 76-79 and 90-93) |
| PageArmv6.PteGetFrame | kernel/arch/arm32/include/arch/mm/page_armv6.h:48-49 | `PTE_GET_FRAME_ARCH` is the 4 KiB-aligned frame address containing the entry word's value |
| PageArmv6.PresentIsValid | kernel/arch/arm32/include/arch/mm/page_armv6.h:44-47 | a present entry is valid; a valid entry that is not present has a bit above the descriptor type set |
| PageArmv6.Level0Queries | kernel/arch/arm32/include/arch/mm/page_armv6.h:44-47 | `PTE_PRESENT_ARCH` and `PTE_VALID_ARCH` of a stored level-0 descriptor, in terms of its fields |
| PageArmv6.Level1Queries | kernel/arch/arm32/include/arch/mm/page_armv6.h:44-53 | `PTE_PRESENT_ARCH`, `PTE_EXECUTABLE_ARCH` and `PTE_VALID_ARCH` of a stored level-1 descriptor, in terms of its fields |
| PageArmv6.GetLevel0Flags | kernel/arch/arm32/include/arch/mm/page_armv6.h:147-155 | the level-0 flags report not-present exactly for a not-present descriptor, and user, read, write, exec and cacheable always |
| PageArmv6.GetLevel1Flags | kernel/arch/arm32/include/arch/mm/page_armv6.h:163-180 | each level-1 flag follows its own rule except that the bufferable bit is reported at bit position PAGE_CACHEABLE, and the cacheable flag is never reported |
| PageArmv6.Level1AccessBits | kernel/arch/arm32/include/arch/mm/page_armv6.h:171-176 | the present, exec, read and user bits of the level-1 decoding each follow their own rule, unless the stray bufferable bit lands on them |
| PageArmv6.Level1OtherBits | kernel/arch/arm32/include/arch/mm/page_armv6.h:177-179 | the write bit follows its rule unless the stray bufferable bit lands on it; the cacheable bit is never set; the global bit is set only by the stray bit |
| PageArmv6.Level0WithFlags | kernel/arch/arm32/include/arch/mm/page_armv6.h:189-208 | `set_pt_level0_flags`: not-present iff PAGE_NOT_PRESENT, with both should-be-zero bits set; otherwise a coarse table with those bits, domain and ns cleared; pxn and the table address unchanged |
| PageArmv6.Level0FlagsQueries | kernel/arch/arm32/include/arch/mm/page_armv6.h:193-207 | the entry `set_pt_level0_flags` leaves is always valid and is present iff PAGE_NOT_PRESENT was absent |
| PageArmv6.CacheableStored | kernel/arch/arm32/include/arch/mm/page_armv6.h:238 | the 1-bit `cacheable` field receives 1 only when PAGE_CACHEABLE is bit 0 and is set |
| PageArmv6.Level1TypeFor | kernel/arch/arm32/include/arch/mm/page_armv6.h:226-233 | the descriptor type is not-present iff PAGE_NOT_PRESENT, the NX kind iff present without PAGE_EXEC, and never a coarse table |
| PageArmv6.Level1WithFlags | kernel/arch/arm32/include/arch/mm/page_armv6.h:222-258 | `set_pt_level1_flags`: type, bufferable 1, tex 0, shareable 1, non-global iff no PAGE_GLOBAL, AP0 by PAGE_USER, AP1 set to read-only only for a user page without PAGE_WRITE and otherwise left as it was, frame unchanged |
| PageArmv6.Level1FlagsQueries | kernel/arch/arm32/include/arch/mm/page_armv6.h:222-258 | an entry written by `set_pt_level1_flags` is always valid (bufferable is set), is present iff PAGE_NOT_PRESENT was not given, and a present one is executable iff PAGE_EXEC was given (also lines 44-53) |
| PageArmv6.Level0Present | kernel/arch/arm32/include/arch/mm/page_armv6.h:260-268 | `set_pt_level0_present` leaves a present coarse-table entry with both should-be-zero bits cleared and every other field unchanged |
| PageArmv6.Level1Present | kernel/arch/arm32/include/arch/mm/page_armv6.h:270-275 | `set_pt_level1_present` changes only the descriptor type, to an executable present small page |
| PageArmv6.GetPtLevel0Flags | kernel/arch/arm32/include/arch/mm/page_armv6.h:147-155 | reading entry `i` of a table gives the level-0 decoding of its word; PAGE_NOT_PRESENT is reported iff `PTE_PRESENT_ARCH` is false |
| PageArmv6.GetPtLevel1Flags | kernel/arch/arm32/include/arch/mm/page_armv6.h:163-180 | reading entry `i` of a table gives the level-1 decoding of its word |
| PageArmv6.SetLevel0Flags | kernel/arch/arm32/include/arch/mm/page_armv6.h:189-208 | after the field-by-field stores, entry `i` holds `Level0WithFlags` of its old descriptor and no other entry changes |
| PageArmv6.SetLevel1Flags | kernel/arch/arm32/include/arch/mm/page_armv6.h:222-258 | entry `i` holds `Level1WithFlags` of its old descriptor and no other entry changes |
| PageArmv6.SetLevel0Present | kernel/arch/arm32/include/arch/mm/page_armv6.h:260-268 | entry `i` holds `Level0Present` of its old descriptor; the steps are two stores, a write barrier and a store; no intermediate entry that changed type has a should-be-zero bit set |
| PageArmv6.SetLevel1Present | kernel/arch/arm32/include/arch/mm/page_armv6.h:270-275 | entry `i` holds `Level1Present` of its old descriptor and no other entry changes |
| PageArmv6.Level0RoundTrip | kernel/arch/arm32/include/arch/mm/page_armv6.h:147-208 | decoding what `set_pt_level0_flags` stored gives back PAGE_NOT_PRESENT and reports user, read, write and exec |
| PageArmv6.Level1RoundTrip | kernel/arch/arm32/include/arch/mm/page_armv6.h:163-258 | decoding what `set_pt_level1_flags` stored: presence survives unless the bufferable bit lands on it; user and exec survive unless it lands on them; read is always reported; write depends on the old AP1 bit; cacheable is never reported |
| PageArmv6.CacheableDecodeMarksNotPresent | kernel/arch/arm32/include/arch/mm/page_armv6.h:179 | with the HelenOS bit positions, an entry encoded as present is present in hardware terms yet decodes with PAGE_NOT_PRESENT set (also lines 238-239) |
| PageArmv6.Level1WriteNotRestored | kernel/arch/arm32/include/arch/mm/page_armv6.h:251-257 | a user page whose AP1 bit is already read-only stays read-only when re-encoded with PAGE_WRITE |
| PageArmv6.GetLevel1FlagsFixed | kernel/arch/arm32/include/arch/mm/page_armv6.h:163-180 | the corrected level-1 decoding: every flag follows its own rule, cacheable is reported iff the cacheable field is set, global never |
| PageArmv6.Level1WithFlagsFixed | kernel/arch/arm32/include/arch/mm/page_armv6.h:222-258 | the corrected encoding stores cacheable iff PAGE_CACHEABLE is given and agrees with `set_pt_level1_flags` on every other field |
| PageArmv6.FixedLevel1RoundTrip | kernel/arch/arm32/include/arch/mm/page_armv6.h:163-258 | with the corrected codec, presence, user, cacheable and the exec of present pages survive the round trip for every choice of bit positions |
| BootArm32.AlignUp | boot/arch/arm32/src/main.c:115 | `ALIGN_UP(top, PAGE_SIZE)` is the least page multiple not below `top` |
| BootArm32.PlacedCount | boot/arch/arm32/src/main.c:114 | the placement loop runs `min(COMPONENTS, TASKMAP_MAX_RECORDS)` times: at most either bound and equal to one of them |
| BootArm32.DestOffset | boot/arch/arm32/src/main.c:111-128 | every destination is page-aligned and the kernel's is the load address itself |
| BootArm32.DestsIncrease | boot/arch/arm32/src/main.c:114-130 | each placed component's inflated image ends at or before the destination of every later one |
| BootArm32.DestsDisjoint | boot/arch/arm32/src/main.c:114-130 | the inflated images of two distinct components do not overlap |
| BootArm32.StrCpy | boot/arch/arm32/src/main.c:121-122 | `str_cpy` into the task-name buffer keeps a prefix of the name shorter than the buffer, the whole name when it fits |
| BootArm32.BootInfo.constructor | boot/arch/arm32/src/main.c:80 | the static boot info starts with no tasks and a task map of TASKMAP_MAX_RECORDS entries |
| BootArm32.Place | boot/arch/arm32/src/main.c:110-130 | the placement loop fills `dest[k]` with each placed component's address; the task map gets one record per placed component but the kernel (address, inflated size, truncated name) and nothing else in it changes |
| BootArm32.InflateEventsShape | boot/arch/arm32/src/main.c:134-151 | a successful inflate loop alternates inflate and clean events, from the last placed component down to the first |
| BootArm32.InflateOrder | boot/arch/arm32/src/main.c:134-151 | components are inflated in strictly decreasing order, each immediately followed by the cache clean of its own destination |
| BootArm32.InflateAll | boot/arch/arm32/src/main.c:134-151 | the loop completes iff every placed component fits below its destination and inflates with EOK; otherwise it halts at the highest failing component, with the reason (too large, with tail, destination and the name its message prints, as written or corrected; or the inflate error code) and the events so far |
| BootArm32.TooLargeHalt | boot/arch/arm32/src/main.c:135-140 | a component whose compressed tail reaches its destination, above which every component booted, is where the loop halts, and not every component boots |
| BootArm32.InflateErrorHalt | boot/arch/arm32/src/main.c:142-148 | the same for a component that fits but whose inflate answers an error, with that code |
| BootArm32.HaltName | boot/arch/arm32/src/main.c:137-138 | as written, a too-large halt at the table's last entry prints no name and any other prints the next entry's name; corrected, it prints the name of the component checked |
| BootArm32.PrepareCaches | boot/arch/arm32/src/main.c:84-108 | the instruction cache is invalidated, then the data cache over the boot data with the word count as size, the MMU started, then each component's compressed range invalidated, in table order |
| BootArm32.BootDataInvalidation | boot/arch/arm32/src/main.c:89 | the boot-data invalidation starts at `bdata_start` and its size is the number of words between the bounds, a quarter of their byte distance |
| BootArm32.BootDataInvalidationMisses | boot/arch/arm32/src/main.c:89 | with at least two words of boot data, the invalidation ends before `bdata_end` and misses the last word (also lines 62-67) |
| BootArm32.BootDataInvalidationCorrected | boot/arch/arm32/src/main.c:89 | the corrected invalidation, sized in bytes, maintains exactly the words from `bdata_start` up to `bdata_end` (also lines 62-67) |
| BootArm32.Dests | boot/arch/arm32/src/main.c:110 | the destination list has one entry per placed component, each its destination address |
| BootArm32.Bootstrap | boot/arch/arm32/src/main.c:82-157 | `bootstrap`: fills the task map and leaves its other records unchanged; jumps to the kernel's address iff every placed component boots, after the cache setup and the inflate events; otherwise halts at the highest failing component, printing the name as written |
| BootArm32.NameAt | boot/arch/arm32/src/main.c:137-138 | reading `components[k].name` is defined exactly for `k` inside the table |
| BootArm32.MessageName | boot/arch/arm32/src/main.c:137-138 | the name the too-large message prints at counter `i`: as written `components[i]`, absent exactly at the end of the table; corrected `components[i - 1]` |
| BootArm32.TooLargeExample | boot/arch/arm32/src/main.c:134-139 | a one-component table whose compressed image reaches its destination is too large, its message as written names no component, and corrected it names the kernel |
| Elf32.ResultCode | generic/include/elf32.h:100-107 | each loader result has a code below 5, and only success has code EE_OK |
| Elf32.ResultOfCode | generic/include/elf32.h:100-107 | a code names a result exactly when it is below 5 |
| Elf32.ResultCodesDistinct | generic/include/elf32.h:100-107 | result and code convert into each other both ways, so the five codes are distinct |
| Elf32.EncodingOf | generic/include/elf32.h:93-98 | the EI_DATA byte selects little-endian iff ELFDATA2LSB, big-endian iff ELFDATA2MSB, and nothing otherwise |
| Elf32.EncodeHalf | generic/include/elf32.h:177 | an `elf32_half` occupies two bytes |
| Elf32.LittleBytes | generic/include/elf32.h:176-180 | a 32-bit word occupies four bytes, least significant first |
| Elf32.EncodeWord | generic/include/elf32.h:176-180 | an `elf32_word`, `elf32_addr` or `elf32_off` occupies four bytes |
| Elf32.HalfRoundTrip | generic/include/elf32.h:177 | decoding the two bytes of a half in either byte order gives it back |
| Elf32.HalfBytesRoundTrip | generic/include/elf32.h:177 | re-encoding a decoded half gives the two bytes back |
| Elf32.LittleRoundTrip | generic/include/elf32.h:176-180 | assembling a word from its little-endian bytes gives it back |
| Elf32.WordRoundTrip | generic/include/elf32.h:176-180 | decoding the four bytes of a word in either byte order gives it back |
| Elf32.WordBytesRoundTrip | generic/include/elf32.h:176-180 | re-encoding a decoded word gives the four bytes back |
| Elf32.MakeIdent | generic/include/elf32.h:65-98 | the identification built for a byte order carries the magic, ELFCLASS32, that order and EV_CURRENT, with zero padding from EI_PAD |
| Elf32.EncodeHeader | generic/include/elf32.h:182-200 | an `elf32_header` occupies 52 bytes |
| Elf32.DecodeHeader | generic/include/elf32.h:182-200 | a header is read iff at least 52 bytes are present, and its identification is the first EI_NIDENT bytes |
| Elf32.HeaderRoundTrip | generic/include/elf32.h:182-200 | decoding an encoded header gives it back, in either byte order |
| Elf32.EncodeProgramHeader | generic/include/elf32.h:233-245 | an `elf32_program_header` occupies 32 bytes |
| Elf32.DecodeProgramHeader | generic/include/elf32.h:233-245 | a program header is read iff at least 32 bytes are present |
| Elf32.ProgramHeaderRoundTrip | generic/include/elf32.h:233-245 | decoding an encoded program header gives it back |
| Elf32.EncodeSectionHeader | generic/include/elf32.h:203-217 | an `elf32_section_header` occupies 40 bytes |
| Elf32.DecodeSectionHeader | generic/include/elf32.h:203-217 | a section header is read iff at least 40 bytes are present |
| Elf32.SectionHeaderRoundTrip | generic/include/elf32.h:203-217 | decoding an encoded section header gives it back |
| Elf32.EncodeSymbol | generic/include/elf32.h:220-230 | an `elf32_symbol` occupies 16 bytes |
| Elf32.DecodeSymbol | generic/include/elf32.h:220-230 | a symbol is read iff at least 16 bytes are present |
| Elf32.SymbolRoundTrip | generic/include/elf32.h:220-230 | decoding an encoded symbol gives it back |
| Elf32.ProgramHeaderAt | generic/include/elf32.h:191 | entry `i` of the program header table (`e_phoff`, `e_phentsize`, `e_phnum`) is read iff `i < e_phnum` and the whole entry lies inside the image (also lines 195-196) |
| Pci.ConfAddr | uspace/drv/pciintel/pci.c:61-62 | `CONF_ADDR` has the enable bit set and is double-word aligned |
| Pci.ConfAddrDecodes | uspace/drv/pciintel/pci.c:61-62 | the fields of `CONF_ADDR` read back as enable, bus, device, function and the register rounded down to a double word, with the reserved bits zero |
| Pci.DataPortOffset | uspace/drv/pciintel/pci.c:135 | `reg & 3` is below 4 and completes the double-word address to `reg` |
| Pci.ConfReadsRegister | uspace/drv/pciintel/pci.c:127-152 | an 8-, 16- or 32-bit configuration read returns the bytes starting at exactly the register asked for, least significant first, and a 16-bit read is below 2^16 (also lines 181-200) |
| Pci.BarMaskToSize | uspace/drv/pciintel/pci.c:620-623 | `pci_bar_mask_to_size` is 0 when the mask has no address bits and otherwise 2^32 minus the address bits, in 32-bit arithmetic |
| Pci.BarSizeIsPowerOfTwo | uspace/drv/pciintel/pci.c:620-623 | a BAR that answers sizing with all address bits above bit `k` set has size 2^k |
| Pci.Classify | uspace/drv/pciintel/pci.c:284-299 | a BAR is I/O iff bit 0 is set, 32-bit memory iff bits 2:1 are 0, 64-bit memory iff they are 2, and reserved otherwise |
| Pci.BarBase | uspace/drv/pciintel/pci.c:313 | `val & 0xfffffff0` is the 16-aligned value just below `val` (also line 315) |
| Pci.Address64 | uspace/drv/pciintel/pci.c:312-313 | the 64-bit address has the low word in its lower half and the high word in its upper half |
| Pci.NextBar | uspace/drv/pciintel/pci.c:297 | the next BAR is 8 bytes on after a 64-bit memory BAR and 4 bytes on otherwise (also lines 326-329) |
| Pci.BarResource | uspace/drv/pciintel/pci.c:281-324 | a reserved BAR adds nothing; otherwise one I/O range (iff I/O) or memory range whose address has the BAR's base as its low word and whose size comes from the sizing answer |
| Pci.BarOf | uspace/drv/pciintel/pci.c:284-323 | a BAR value of reserved memory type yields nothing; otherwise one range, I/O iff bit 0 is set, whose address has the BAR's base as its low word and which has the given size |
| Pci.Bars | uspace/drv/pciintel/pci.c:608-618 | `pci_read_bars` adds no interrupts |
| Pci.HwResourceList.constructor | uspace/drv/pciintel/pci.c:588-593 | a fresh resource list is empty, with room for the given number of entries |
| Pci.HwResourceList.AddRange | uspace/drv/pciintel/pci.c:234-257 | `pci_add_range` appends one I/O or memory range with the given address and size |
| Pci.HwResourceList.AddInterrupt | uspace/drv/pciintel/pci.c:332-347 | `pci_add_interrupt` appends one interrupt with the given number |
| Pci.HwResourceList.ReadBar | uspace/drv/pciintel/pci.c:267-330 | `pci_read_bar` appends what `BarResource` says for the BAR and returns the offset of the next BAR |
| Pci.HwResourceList.ReadBars | uspace/drv/pciintel/pci.c:608-618 | `pci_read_bars` appends the resources of every BAR from PCI_BASE_ADDR_0 to PCI_BASE_ADDR_5, in order |
| Pci.HwResourceList.ReadInterrupt | uspace/drv/pciintel/pci.c:349-354 | `pci_read_interrupt` appends the interrupt line's number unless it reads 0xff, and otherwise nothing |
| Pci.BarsStep | uspace/drv/pciintel/pci.c:616-617 | the resources from a BAR on are that BAR's resource followed by those from the next BAR on |
| Pci.BarsBound | uspace/drv/pciintel/pci.c:608-618 | from any BAR offset on, at most one resource per remaining BAR register is added |
| Pci.BarsAtMostSix | uspace/drv/pciintel/pci.c:608-618 | `pci_read_bars` adds at most six resources |
| Pci.BusScan | uspace/drv/pciintel/pci.c:361-453 | every function the scan lists is a valid location on the bus or a bus below it, answers, was bound, and is function 0 or belongs to a multifunction device; when no allocation fails, every answering bound function of the bus is listed |
| Pci.CompleteExtend | uspace/drv/pciintel/pci.c:427-443 | listing more functions, such as those found behind a bridge, keeps the scan complete |
| Pci.CompleteNext | uspace/drv/pciintel/pci.c:375-446 | once function `fn` is listed whenever it should be, the scan is complete up to the next function |
| Pci.CompleteDevice | uspace/drv/pciintel/pci.c:373-396 | a device is finished after eight functions, when function 0 does not answer, or when function 0 is single-function |
| HashIterators.NextNonEmpty | uspace/lib/cpp/include/internal/hash_table_iterators.hpp:76-82 | the bucket search finds the first bucket from `from` below `max_idx_` whose head is not null, and None exactly when all of them are empty |
| HashIterators.NextInList | uspace/lib/cpp/include/internal/hash_table_iterators.hpp:71-72 | `current_->next` is the next node of the circular list, and is the head exactly after the last node |
| HashIterators.Step | uspace/lib/cpp/include/internal/hash_table_iterators.hpp:69-89 | `operator++` moves to a node of the table strictly later in bucket-then-list order, or to the end |
| HashIterators.First | uspace/lib/cpp/include/internal/hash_table_iterators.hpp:50-54 | the start node is the head of the first non-empty bucket, and there is none iff every bucket is empty |
| HashIterators.Block | uspace/lib/cpp/include/internal/hash_table_iterators.hpp:69-89 | the nodes of one bucket, in list order from the head |
| HashIterators.OrderNodes | uspace/lib/cpp/include/internal/hash_table_iterators.hpp:69-89 | the iteration order lists exactly the nodes of the table, in strictly increasing bucket-then-list order, so each node once |
| HashIterators.OrderHead | uspace/lib/cpp/include/internal/hash_table_iterators.hpp:76-82 | the iteration order is empty iff no bucket is non-empty, and otherwise starts at the first non-empty bucket's head |
| HashIterators.StepFollowsOrder | uspace/lib/cpp/include/internal/hash_table_iterators.hpp:69-89 | from each node, `operator++` reaches the next node of the iteration order, and from the last node the end |
| HashIterators.Walk | uspace/lib/cpp/include/internal/hash_table_iterators.hpp:69-89 | repeated increments stay on nodes of the table |
| HashIterators.IterationVisitsOrder | uspace/lib/cpp/include/internal/hash_table_iterators.hpp:69-89 | `n` increments from the first node reach the `n`-th node of the order, and the end after exactly as many increments as the table has nodes (also lines 185-205) |
| HashIterators.WalkLast | uspace/lib/cpp/include/internal/hash_table_iterators.hpp:69-89 | one more increment is one more step from where `n` increments lead |
| HashIterators.ProbesAsWritten | uspace/lib/cpp/include/internal/hash_table_iterators.hpp:76 | the bucket search as written reads the bucket after `idx_` first (also lines 101, 192 and 217) |
| HashIterators.WrapReadsPastEnd | uspace/lib/cpp/include/internal/hash_table_iterators.hpp:76 | leaving the last non-empty bucket with `max_idx_` equal to the bucket count reads `table_[max_idx_]`, past the end of the table (also lines 101, 192 and 217) |
| HashIterators.OneBucketReadsPastEnd | uspace/lib/cpp/include/internal/hash_table_iterators.hpp:76 | in a one-bucket table with one node, `++` reads bucket 1 while the intended result is the end |
| HashIterators.HashTableIterator.constructor | uspace/lib/cpp/include/internal/hash_table_iterators.hpp:50-54 | the iterator holds the given table, bucket index, bound and node (also lines 166-170) |
| HashIterators.HashTableIterator.Increment | uspace/lib/cpp/include/internal/hash_table_iterators.hpp:69-89 | prefix `++` moves the iterator to `Step` of its node, reading only buckets in bounds; at the end the index is `max_idx_` (also lines 185-205) |
| HashIterators.HashTableIterator.PostIncrement | uspace/lib/cpp/include/internal/hash_table_iterators.hpp:91-116 | postfix `++` returns an iterator at the old bucket and node and advances this one as prefix `++` does (also lines 207-232) |
| HashIterators.HashTableIterator.Equals | uspace/lib/cpp/include/internal/hash_table_iterators.hpp:140-145 | two iterators are equal iff both are at the end, whatever their indices, or both are at the same node (also lines 266-271) |
| HashIterators.HashTableIterator.ToConst | uspace/lib/cpp/include/internal/hash_table_iterators.hpp:249-257 | the conversion to a const iterator keeps the table, index, bound and node |
| HashIterators.LocalStep | uspace/lib/cpp/include/internal/hash_table_iterators.hpp:310-317 | a local `++` moves to a later node of the bucket or to null (also lines 388-395) |
| HashIterators.LocalWalk | uspace/lib/cpp/include/internal/hash_table_iterators.hpp:310-317 | repeated local increments stay on nodes of the bucket (also lines 388-395) |
| HashIterators.LocalVisitsEachOnce | uspace/lib/cpp/include/internal/hash_table_iterators.hpp:310-317 | from position `start`, `n` local increments reach position `start + n`, and null once the bucket is exhausted (also lines 388-395) |
| HashIterators.LocalIterator.constructor | uspace/lib/cpp/include/internal/hash_table_iterators.hpp:292-295 | the local iterator holds the given bucket and node (also lines 370-373) |
| HashIterators.LocalIterator.Increment | uspace/lib/cpp/include/internal/hash_table_iterators.hpp:310-317 | prefix `++` moves to the next node, or to null on coming back to the head (also lines 388-395) |
| HashIterators.LocalIterator.PostIncrement | uspace/lib/cpp/include/internal/hash_table_iterators.hpp:319-327 | postfix `++` returns an iterator at the old node and advances this one (also lines 397-405) |
| HashIterators.LocalIterator.Equals | uspace/lib/cpp/include/internal/hash_table_iterators.hpp:345-350 | two null local iterators are equal, and a null one never equals one at a node (also lines 432-437) |
| HashIterators.LocalIterator.ToConst | uspace/lib/cpp/include/internal/hash_table_iterators.hpp:417-425 | the conversion keeps the bucket and the node |
| HashPolicies.TotalUpdate | uspace/lib/cpp/include/internal/hash_table_policies.hpp:66 | replacing one bucket changes the node count by the difference in that bucket's length (also line 316) |
| HashPolicies.FirstMatch | uspace/lib/cpp/include/internal/hash_table_policies.hpp:62-84 | the walk from the head finds the first node with the key, and None exactly when no node has it (also lines 275-287) |
| HashPolicies.CountAppend | uspace/lib/cpp/include/internal/hash_table_policies.hpp:254-261 | the count of a key in two concatenated runs of nodes is the sum of their counts |
| HashPolicies.CountPositive | uspace/lib/cpp/include/internal/hash_table_policies.hpp:245-264 | the count of a key is at most the bucket's length, positive iff some node has the key, and equal to the length iff all have it |
| HashPolicies.UniqueCountAtMostOne | uspace/lib/cpp/include/internal/hash_table_policies.hpp:39-42 | in a bucket without repeated keys each key is counted at most once |
| HashPolicies.EraseScanAsWritten | uspace/lib/cpp/include/internal/hash_table_policies.hpp:58-84 | the erase loop as written either erases a node with the key, finds none, or dereferences a null head |
| HashPolicies.EraseEmptyBucketDereferencesNull | uspace/lib/cpp/include/internal/hash_table_policies.hpp:58-64 | erasing from an empty bucket dereferences its null head |
| HashPolicies.EraseScan | uspace/lib/cpp/include/internal/hash_table_policies.hpp:58-86 | with the null head tested first, the loop never dereferences null, erases iff some node has the key, and agrees with the code as written on every non-empty bucket |
| HashPolicies.HeadOnlyInsert | uspace/lib/cpp/include/internal/hash_table_policies.hpp:44-53 | the single-key insert as written leaves the bucket unchanged or prepends the value, and afterwards some node has its key (also lines 159-198) |
| HashPolicies.HeadOnlyInsertDuplicates | uspace/lib/cpp/include/internal/hash_table_policies.hpp:44-53 | inserting 2 into a bucket [1, 2] as written leaves [2, 1, 2], with the key 2 twice (also line 175) |
| HashPolicies.SingleInsertBucket | uspace/lib/cpp/include/internal/hash_table_policies.hpp:159-198 | the corrected insert leaves the bucket unchanged iff it holds the key and otherwise prepends the value, and keeps keys unique |
| HashPolicies.FindIn | uspace/lib/cpp/include/internal/hash_table_policies.hpp:95 | `find` reaches the first node of the key's bucket with the key, and the end iff no node there has it (also line 105) |
| HashPolicies.SingleEqualRangeAsWritten | uspace/lib/cpp/include/internal/hash_table_policies.hpp:89-107 | `make_pair(it, ++it)` as written increments the end iterator iff the key is absent, and otherwise answers two equal iterators |
| HashPolicies.SingleEqualRangeAsWrittenEmpty | uspace/lib/cpp/include/internal/hash_table_policies.hpp:95-96 | a set holding 3 answers the empty range (end, end) for 3, and increments the end iterator for 4 |
| HashPolicies.MultiInsertBucket | uspace/lib/cpp/include/internal/hash_table_policies.hpp:404-429 | a multi-key insert adds exactly one node to the bucket |
| HashPolicies.MultiInsertCount | uspace/lib/cpp/include/internal/hash_table_policies.hpp:404-429 | a multi-key insert counts the inserted key once more and every other key as before |
| HashPolicies.MultiInsertKeepsGroups | uspace/lib/cpp/include/internal/hash_table_policies.hpp:419-422 | inserting after the first node with the same key keeps nodes with equal keys next to each other |
| HashPolicies.RangeAtTableEndDereferencesEnd | uspace/lib/cpp/include/internal/hash_table_policies.hpp:339-343 | a multiset whose last node in iteration order has the key: the range loop as written dereferences the end iterator |
| HashPolicies.RangeLast | uspace/lib/cpp/include/internal/hash_table_policies.hpp:339-345 | with the end tested first, the range ends at a node without the key or at the end, and where the code as written ends without crashing it ends at the same node |
| HashPolicies.Run | uspace/lib/cpp/include/internal/hash_table_policies.hpp:339-343 | the run of nodes with the key from a position lies in the bucket, all have the key, and the node after it does not |
| HashPolicies.RangeLastAfterRun | uspace/lib/cpp/include/internal/hash_table_policies.hpp:329-346 | in a consistent table the range from any node of the run ends at the node after the run, in iteration order |
| HashPolicies.CountOfRun | uspace/lib/cpp/include/internal/hash_table_policies.hpp:319-320 | a bucket whose nodes with the key are exactly those of one block counts as many as the block is long |
| HashPolicies.NoReturn | uspace/lib/cpp/include/internal/hash_table_policies.hpp:319 | in a bucket with equal keys grouped, no node after the end of a run has the key again |
| HashPolicies.GroupedRunIsCount | uspace/lib/cpp/include/internal/hash_table_policies.hpp:319-320 | when equal keys are grouped, the run from the first node with the key holds every node with the key (also lines 329-346) |
| HashPolicies.GroupedRun | uspace/lib/cpp/include/internal/hash_table_policies.hpp:319 | when equal keys are grouped, no node after the run from a node with the key has that key |
| HashPolicies.RunStarts | uspace/lib/cpp/include/internal/hash_table_policies.hpp:339-343 | the run from a node with the key holds at least that node |
| HashPolicies.HashTable.constructor | uspace/lib/cpp/include/internal/hash_table_policies.hpp:47 | a new table has the given number of buckets, all empty, and size 0 |
| HashPolicies.HashTable.SingleCount | uspace/lib/cpp/include/internal/hash_table_policies.hpp:38-42 | the single-key count is 1 iff the key's bucket holds the key and 0 otherwise, the true count when keys are unique |
| HashPolicies.HashTable.SingleFindInsertionSpot | uspace/lib/cpp/include/internal/hash_table_policies.hpp:44-53 | the insertion spot is the key's bucket and its head, None when the head is null |
| HashPolicies.HashTable.SingleErase | uspace/lib/cpp/include/internal/hash_table_policies.hpp:55-87 | the first node with the key is unlinked, the size drops by one and 1 is returned; with no such node nothing changes and 0 is returned; other buckets never change |
| HashPolicies.HashTable.SingleInsertAsWritten | uspace/lib/cpp/include/internal/hash_table_policies.hpp:159-198 | the insert as written returns the head with false when it has the key, else prepends the value and returns it with true, the size growing iff inserted |
| HashPolicies.HashTable.SingleInsert | uspace/lib/cpp/include/internal/hash_table_policies.hpp:159-198 | the corrected insert returns false iff the bucket held the key, points at a node with the key, and the size grows iff inserted |
| HashPolicies.HashTable.Prepend | uspace/lib/cpp/include/internal/hash_table_policies.hpp:148-149 | `prepend` makes the value the bucket's head and grows the size by one (also lines 189-190, 231-232 and 422) |
| HashPolicies.HashTable.SetBucket | uspace/lib/cpp/include/internal/hash_table_policies.hpp:66-77 | relinking a bucket keeps every node in its key's bucket and the size equal to the node count (also lines 314-316) |
| HashPolicies.HashTable.SingleEqualRange | uspace/lib/cpp/include/internal/hash_table_policies.hpp:89-107 | (end, end) when the key is absent; otherwise the found node and the node after it, a range of that one node, whose second end is both ends of the code as written |
| HashPolicies.HashTable.MultiCount | uspace/lib/cpp/include/internal/hash_table_policies.hpp:245-264 | the multi-key count is the number of nodes with the key in its bucket |
| HashPolicies.HashTable.MultiFindInsertionSpot | uspace/lib/cpp/include/internal/hash_table_policies.hpp:266-295 | the spot is the first node with the key in its bucket, else the bucket's head (None when empty) |
| HashPolicies.HashTable.MultiInsert | uspace/lib/cpp/include/internal/hash_table_policies.hpp:367-429 | a multi-key insert always answers true, puts the node after the first node with its key or at the head, returns an iterator at it and grows the size by one |
| HashPolicies.HashTable.MultiErase | uspace/lib/cpp/include/internal/hash_table_policies.hpp:297-327 | every node with the key is unlinked from its bucket, the size drops by their number, which is returned; other buckets never change |
| HashPolicies.HashTable.MultiEqualRange | uspace/lib/cpp/include/internal/hash_table_policies.hpp:329-365 | (end, end) when the key is absent; otherwise the first node with the key and the first node after it without the key |
| HashPolicies.Unlink | uspace/lib/cpp/include/internal/hash_table_policies.hpp:304-317 | the walk keeps the nodes without the key in order and counts the others, leaving none with the key |
| HashPolicies.Without | uspace/lib/cpp/include/internal/hash_table_policies.hpp:308-316 | the bucket without the key's nodes keeps only nodes of the bucket, none with the key |
| HashPolicies.WithoutCount | uspace/lib/cpp/include/internal/hash_table_policies.hpp:308-316 | removing the key's nodes removes exactly as many nodes as it counts and leaves none |
| HashPolicies.WithoutAppend | uspace/lib/cpp/include/internal/hash_table_policies.hpp:308-316 | removing the key's nodes from a concatenation removes them from each part |
| HashPolicies.WithoutStretch | uspace/lib/cpp/include/internal/hash_table_policies.hpp:308-316 | when the key's nodes form one stretch between two stretches without the key, removing them leaves the two outer stretches |
| HashPolicies.GroupedWithoutIsFirstRun | uspace/lib/cpp/include/internal/hash_table_policies.hpp:304-320 | when equal keys are grouped, removing every node with the key is removing the run that starts at the first node with it, where the loop stops |
| Graph.FirstIndex | uspace/lib/graph/graph.c:150-155 | a list_foreach with a break stops at the first element passing the test; None exactly when no element passes |
| Graph.FindMode | uspace/lib/graph/graph.c:314-319 | the mode found is on the list and has the index asked for; None exactly when no mode has it (also lines 367-372 and 406-411) |
| Graph.Remove | uspace/lib/graph/graph.c:187 | list_remove takes the element off the list and keeps every other element (also line 197) |
| Graph.RemoveOne | uspace/lib/graph/graph.c:187 | removing an element that is on the list once shortens it by one and leaves no element twice (also line 197) |
| Graph.RemoveAbsent | uspace/lib/graph/graph.c:187 | removing an element that is not on the list leaves the list unchanged (also line 197) |
| Graph.RegisterRc | uspace/lib/graph/graph.c:94-113 | a registration answers EOK exactly when the category lookup, the service registration and the category addition all succeed, and otherwise with the code of a failed step |
| Graph.RegisterCalls | uspace/lib/graph/graph.c:94-107 | a registration first looks up the category, ends with the category addition when it succeeds, and unregisters the service exactly when only the category addition failed |
| Graph.SetMode | uspace/lib/graph/graph.c:385-468 | EREFUSED without a share; ENOENT for an unknown index; EINVAL when the mode's version differs; ENOMEM when the share fails, and ENOMEM destroying only the new area when the mode change fails; on any failure the state is unchanged; EOK exactly when the share, the mode, its version, the mapping and the driver all succeed, and then the mode found is current with the new storage and the previous storage is destroyed; a set mode always owns storage of its screen size |
| Graph.Yield | uspace/lib/graph/graph.c:250-271 | after a yield no mode is set, a set mode has no storage left, and ownership of storage is kept |
| Graph.YieldReleased | uspace/lib/graph/graph.c:252-258 | a yield destroys at most one area, and one exactly when a mode is set with storage |
| Graph.YieldIdempotent | uspace/lib/graph/graph.c:250-271 | a second yield changes nothing and destroys nothing |
| Graph.SetModeThenYield | uspace/lib/graph/graph.c:250-271 | a yield after a successful set_mode destroys exactly the storage set_mode installed (also lines 453-467) |
| Graph.SetModeReleasesPrevious | uspace/lib/graph/graph.c:448-458 | a successful set_mode destroys the storage installed by the previous successful one, so no storage is leaked |
| Graph.QueryMode | uspace/lib/graph/graph.c:352-383 | EREFUSED without a data read; otherwise a mode is sent exactly when one has the index, it is that mode and the answer is the transfer's, else ENOENT |
| Graph.QueryCurrentMode | uspace/lib/graph/graph.c:333-350 | EREFUSED without a data read; otherwise the current mode is sent exactly when a mode is set, else ENOENT |
| Graph.SetModeThenQuery | uspace/lib/graph/graph.c:352-383 | after a successful set_mode the current mode is the mode get_mode reports for the requested index (also lines 460-465) |
| Graph.DefaultModeLockingAsWritten | uspace/lib/graph/graph.c:311-330 | vs_get_default_mode locks mode_mtx first and unlocks it last |
| Graph.DefaultModeNotFoundUnlocksTwice | uspace/lib/graph/graph.c:321-330 | with no mode at the default index the mutex is unlocked twice, the second time while not held |
| Graph.Visualizer.Init | uspace/lib/graph/graph.c:69-79 | an initialised visualizer passes every assertion of graph_destroy_visualizer and holds no storage; the object it initialises comes from the `Alloc` constructor, which models graph_alloc_visualizer (also lines 58-61) |
| Graph.Visualizer.LockModes | uspace/lib/graph/graph.c:311 | locking mode_mtx needs it free, holds it and changes no mode state (also lines 364 and 403) |
| Graph.Visualizer.UnlockModes | uspace/lib/graph/graph.c:330 | unlocking mode_mtx needs it held, frees it and changes no mode state (also lines 382, 414 and 422) |
| Graph.Visualizer.LookupMode | uspace/lib/graph/graph.c:367-372 | the loop over the modes finds what FindMode specifies |
| Graph.Visualizer.SetModeHandler | uspace/lib/graph/graph.c:385-468 | the handler's answer, the areas it destroys and the new mode state are those SetMode specifies, and mode_mtx is free again |
| Graph.Visualizer.Install | uspace/lib/graph/graph.c:448-465 | the old mode's storage is destroyed exactly as a yield would destroy it, and the new mode, its storage and its screen size are installed with the mode list unchanged |
| Graph.Visualizer.YieldHandler | uspace/lib/graph/graph.c:250-271 | the new mode state and the destroyed areas are those Yield and YieldReleased specify, and the answer is the driver's |
| Graph.Visualizer.GetModeHandler | uspace/lib/graph/graph.c:352-383 | the answer is the one QueryMode specifies, the mode state is unchanged and mode_mtx is free again |
| Graph.Visualizer.GetDefaultModeHandler | uspace/lib/graph/graph.c:301-331 | the answer is QueryMode at the default index, the mode state is unchanged, and mode_mtx is released once on every path |
| Graph.Visualizer.GetCurrentModeHandler | uspace/lib/graph/graph.c:333-350 | the answer is the one QueryCurrentMode specifies |
| Graph.FindModeAt | uspace/lib/graph/graph.c:367-372 | a loop that stops at the first mode with the index has found FindMode's answer |
| Graph.Renderer.Init | uspace/lib/graph/graph.c:81-86 | a new renderer holds one reference; the object it initialises comes from the `Alloc` constructor, which models graph_alloc_renderer (also lines 63-67) |
| Graph.Renderer.Destroy | uspace/lib/graph/graph.c:216-221 | destroying drops one reference and frees the renderer exactly when none is left |
| Graph.VisualizerHandles | uspace/lib/graph/graph.c:150-151 | the handles of the registered visualizers, in list order |
| Graph.RendererHandles | uspace/lib/graph/graph.c:168-169 | as VisualizerHandles, for the renderer list: the handles of the registered renderers, in list order |
| Graph.Lookup | uspace/lib/graph/graph.c:150-155 | the first position holding the handle; None exactly when no entry has it (also lines 168-173) |
| Graph.LookupAt | uspace/lib/graph/graph.c:150-155 | a loop that stops at the first entry with the handle has found Lookup's answer (also lines 168-173) |
| Graph.Registry.constructor | uspace/lib/graph/graph.c:48-56 | both lists start empty, both name counters at zero, and nothing has been asked of the location service |
| Graph.Registry.RegisterVisualizer | uspace/lib/graph/graph.c:88-114 | the visualizer counter always advances; the location service sees the requests RegisterCalls lists; the answer is RegisterRc; the visualizer is appended with its assigned handle exactly on success |
| Graph.Registry.RegisterRenderer | uspace/lib/graph/graph.c:116-142 | as RegisterVisualizer, with the renderer list and counter |
| Graph.Registry.GetVisualizer | uspace/lib/graph/graph.c:144-160 | the first registered visualizer with the handle, or null when none has it |
| Graph.Registry.FindRenderer | uspace/lib/graph/graph.c:166-173 | the loop over the renderers finds the first position holding the handle, as Lookup specifies |
| Graph.Registry.GetRenderer | uspace/lib/graph/graph.c:162-181 | the first registered renderer with the handle, or null; the renderer found gains one reference and no other renderer changes |
| Graph.Registry.UnregisterVisualizer | uspace/lib/graph/graph.c:183-191 | the service is unregistered, the visualizer leaves the list whatever the answer, the list shrinks by one and the answer is the location service's |
| Graph.Registry.UnregisterRenderer | uspace/lib/graph/graph.c:193-201 | as UnregisterVisualizer, with the renderer list |

## Left out

- Entry words are numbers below 2^32, not `bv32` values. Each field is read by division and remainder by its power of two. This gives the same values as masks and shifts, and the word-level proofs stay within solver limits.
- `PAGE_SIZE`, `set_ptl0_addr` (inline assembly writing TTBR0) and `page_arch_init` (declared only) are not modelled.
- PageArmv6.SetLevel1Flags: stores the finished entry once. The source instead stores one field at a time, and the intermediate words are not modelled. The level-0 setter keeps its separate stores.
- The `PAGE_*_SHIFT` constants are a parameter. The header that defines them is not part of this model. `HelenShifts` supplies the HelenOS values for the findings.
- BootArm32: `size_t` wrap-around of the `top` cursor and of `start + size` is not modelled. The addresses are unbounded.
- BootArm32: `printf`, the cache maintenance routines, `mmu_start` and `jump_to_kernel` are recorded as trace events with their arguments, and their effects are not modelled. `inflate` answers with an input status and does not produce bytes.
- BootArm32.StrCpy: names are counted in characters. `str_cpy` bounds the copy in bytes and does not cut a UTF-8 character, and that byte-level truncation is not modelled.
- BootArm32.Bootstrap: follows main.c as written, so its boot-data invalidation is sized in words and its too-large halt prints the name as written. The corrections are `BootDataInvalidationCorrected` and the `Corrected` choice of `InflateAll`.
- BootArm32: `PA2KA(BOOT_OFFSET)`, `TASKMAP_MAX_RECORDS`, `BOOTINFO_TASK_NAME_BUFLEN` and the boot-data bounds are fields of `Config`. The headers that define them are not part of this model.
- Macros: `isalpha` and `isalphanum` are not modelled. They expand to `is_lower`, `is_upper`, `is_alpha` and `is_digit`, which this header does not define.
- Macros: `STRING` is a preprocessor stringification and is not modelled. `PA_OVERLAPS` is also left out, because `KA2PA` is not part of this model.
- `elf32_load` is only declared in the header, so loading is not modelled.
- Pci: I/O port access, the configuration-space lock and `pci_conf_write_*` are not modelled. The BAR sizing write of all ones is represented by its answer, the `SizeMask` input.
- Pci: the register offsets and header-type bits that `pci.h` defines come from section 6.1 of the PCI Local Bus Specification 3.0. `pci.h` is not part of this model.
- Pci: not modelled are the DDF framework, match ids, function names, `pci_add_device`, `pciintel_get_resources`, `pciintel_enable_interrupt`, `main` and the diagnostic `printf` calls.
- Pci.BusScan: a failed allocation is an input. The scan is claimed complete only when no allocation fails.
- HashPolicies: the multi-key `count` calls an unqualified `get_bucket_idx_` (hash_table_policies.hpp:248), and the multi-key `erase` calls `table.begin(it)` and `node.unlink()` through a pointer (hash_table_policies.hpp:301,314). Neither compiles, so no input can show their behaviour. Both are modelled as evidently intended.
- HashPolicies: the `if (!bucket)` branch of `insert` cannot be taken, because a bucket array element always exists. It is not modelled.
- HashPolicies: `emplace` runs the same logic as `insert` on a constructed value, so one member models both. Key equality is `==` on the extracted keys.
- HashPolicies: `find` and `get_bucket_idx_` of `hash_table.hpp` are not part of this model. Their results are `FirstMatch` and the table's `bucketOf`.
- HashPolicies.HashTable.Prepend: `hash_table_bucket::prepend` is not part of this model. That the value becomes the bucket's head, and the size grows by one, is an assumption about it.
- HashPolicies.HashTable.MultiErase: removes every node with the key from the bucket. The loop at hash_table_policies.hpp:304-320 differs in three ways. It never moves the bucket's head when the head node is erased. Its inner `while` reads `*it` again after the last node of the bucket. It erases only the first run of equal keys. The model does not reproduce these. `Valid` does not require grouping. On a grouped bucket, `GroupedWithoutIsFirstRun` shows that removing the first run gives the same bucket.
- HashPolicies: nodes are positions in bucket sequences, so list node allocation, `delete` and rehashing are not modelled.
- HashIterators: an iterator holds the table contents it was created over. Updating the table does not invalidate it.
- HashIterators: `operator*`, `operator->`, `node()` and `idx()` only return fields and are not modelled.
- HashIterators.LocalIterator.Equals: compares positions, so it identifies nodes only for iterators over the same bucket.
- Graph: not modelled are IPC, the location service, `as_area_destroy`, the notification calls (graph.c:223-241), `vs_claim` and its atomic flag, `vs_enumerate_modes`, and the damage, suspend and wake-up handlers and connection loop (graph.c:470-606).
- Graph: each fibril mutex is a boolean, and concurrency is not modelled. The service name built by `snprintf` is the `ServiceName` value it encodes.
- Graph: `graph.h` and `refcount.h` are not part of this model. The driver operations are inputs, and their effects on the driver are not modelled.
- Graph: `graph_alloc_visualizer` and `graph_alloc_renderer` answer NULL when `malloc` fails. The `Alloc` constructors always succeed.
- Graph.Renderer.Destroy: a renderer is marked freed rather than deallocated.

## Findings

| source | as written | input that shows it | evidently intended | confidence | as-written member | corrected member |
|---|---|---|---|---|---|---|
| kernel/arch/arm32/include/arch/mm/page_armv6.h:179 | the bufferable bit is shifted by the flag value `PAGE_CACHEABLE`, not by `PAGE_CACHEABLE_SHIFT`, and cacheable is never reported | with the HelenOS positions (PAGE_CACHEABLE = 1, the bit of PAGE_NOT_PRESENT), a present entry encoded with flags {PAGE_READ} decodes with PAGE_NOT_PRESENT set | report PAGE_CACHEABLE iff the cacheable field is set | high, not executed | PageArmv6.CacheableDecodeMarksNotPresent | PageArmv6.FixedLevel1RoundTrip |
| boot/arch/arm32/src/main.c:137-138 | the too-large message prints `components[i].name` while the check is about `components[i - 1]` | one component whose compressed image reaches its destination: the message reads `components[1]`, past a one-entry table | print `components[i - 1].name`, the component checked | high, not executed | BootArm32.TooLargeExample | BootArm32.HaltName |
| boot/arch/arm32/src/main.c:89 | `&bdata_end - &bdata_start` subtracts two `void *` pointers, a count of words, and passes it as the byte size of `invalidate_dcache` | boot data of two or more words: the loop stops after a quarter of them and never reaches the last word | pass the byte distance between the two bounds | high, not executed | BootArm32.BootDataInvalidationMisses | BootArm32.BootDataInvalidationCorrected |
| uspace/lib/cpp/include/internal/hash_table_iterators.hpp:76 | the bucket search reads `table_[idx]` before testing `idx < max_idx_` (also lines 101 and 192 and 217) | a table with one bucket and one node: `++` on that node reads `table_[1]` | test the bound before reading the bucket | high, not executed | HashIterators.OneBucketReadsPastEnd | HashIterators.HashTableIterator.Increment |
| uspace/lib/cpp/include/internal/hash_table_policies.hpp:59-64 | single-key `erase` dereferences the bucket head without a null check | erasing any key from an empty table | answer 0 when the bucket is empty | high, not executed | HashPolicies.EraseEmptyBucketDereferencesNull | HashPolicies.HashTable.SingleErase |
| uspace/lib/cpp/include/internal/hash_table_policies.hpp:44-53 | single-key `insert` compares the new key with the bucket head only (also line 175) | a bucket holding keys 1 then 2: inserting key 2 prepends a second node with key 2 | insert only when no node of the bucket has the key | high, not executed | HashPolicies.HeadOnlyInsertDuplicates | HashPolicies.HashTable.SingleInsert |
| uspace/lib/cpp/include/internal/hash_table_policies.hpp:96 | single-key `equal_range` increments the found iterator while also using it as the first element of the pair, so both ends are the incremented iterator; a miss increments `end()` (also line 106) | a table [[3]] and key 3: the range is (end, end) and empty; key 4 increments `end()` | the range from the found node to the node after it, or (end, end) on a miss | medium, not executed | HashPolicies.SingleEqualRangeAsWrittenEmpty | HashPolicies.HashTable.SingleEqualRange |
| uspace/lib/cpp/include/internal/hash_table_policies.hpp:343 | multi-key `equal_range` dereferences the iterator after the run of equal keys, even when that is `end()` (also line 362) | a table [[3]] and key 3: the node after the run is the end | stop at the end without dereferencing it | high, not executed | HashPolicies.RangeAtTableEndDereferencesEnd | HashPolicies.HashTable.MultiEqualRange |
| uspace/lib/graph/graph.c:325 | the not-found branch of `vs_get_default_mode` unlocks `mode_mtx`, and the common exit unlocks it again (also line 330) | a visualizer with no mode at `def_mode_idx` | unlock once on every path | high, not executed | Graph.DefaultModeNotFoundUnlocksTwice | Graph.Visualizer.GetDefaultModeHandler |
