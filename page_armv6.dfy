/*
 * ARMv6/ARMv7 short-descriptor page-table entries (HelenOS arm32 kernel).
 *
 * A page-table entry (pte_t) is one 32-bit word, declared as a union of two
 * packed bit-field structures: read through a level-0 table it is a
 * coarse-table pointer (`Level0`), read through a level-1 table it is a
 * small-page descriptor (`Level1`). The layouts follow the short-descriptor
 * translation-table format of section B3.5.1 of the ARMv7-A/R Architecture
 * Reference Manual, first field in the least significant bits:
 *
 *   level 0:  type 1:0, pxn 2, ns 3, sbz0 4, domain 8:5, sbz1 9, addr 31:10
 *   level 1:  type 1:0, B 2, C 3, AP0 5:4, TEX 8:6, AP1 9, S 10, nG 11,
 *             frame 31:12
 *
 * A store `p->field = v` through one view is modelled as decoding the word
 * into that view, updating the field (truncated to its width, as C does),
 * and encoding it back.
 *
 * The abstract page flags are an `int` whose bits sit at the PAGE_*_SHIFT
 * positions of the generic memory-management header, which is not part of
 * this model; the positions are therefore a parameter (`Shifts`). As in
 * HelenOS, presence is stored inverted: the bit at the "present" shift is
 * PAGE_NOT_PRESENT.
 */
module PageArmv6 {
  import opened Powers

  /* ---------------------------------------------------------------------- */
  /* Abstract flags                                                          */
  /* ---------------------------------------------------------------------- */

  /** Bit positions of the abstract page flags (PAGE_*_SHIFT). */
  datatype Shifts = Shifts(cacheable: nat, present: nat, user: nat, read: nat,
                           write: nat, exec: nat, global: nat)
  {
    /** Each flag is a distinct bit of a 32-bit `int`. */
    predicate Valid() {
      && cacheable < 32 && present < 32 && user < 32 && read < 32
      && write < 32 && exec < 32 && global < 32
      && cacheable != present && cacheable != user && cacheable != read
      && cacheable != write && cacheable != exec && cacheable != global
      && present != user && present != read && present != write
      && present != exec && present != global
      && user != read && user != write && user != exec && user != global
      && read != write && read != exec && read != global
      && write != exec && write != global
      && exec != global
    }
  }

  /** The bit positions HelenOS assigns (cacheable 0, present 1, user 2, ... global 6). */
  const HelenShifts := Shifts(0, 1, 2, 3, 4, 5, 6)

  /**
   * A flags word, given as the set of the positions of its one bits: `|` is
   * union, `&` is intersection and `(c) << s` for a truth value `c` is `{s}`
   * or `{}`.
   */
  type FlagWord = set<nat>

  /** `flags & (1 << s)` is non-zero. */
  predicate Has(flags: FlagWord, s: nat) { s in flags }

  /** The flag value `1 << s`, e.g. PAGE_CACHEABLE for the cacheable shift. */
  function Bit(s: nat): FlagWord { {s} }

  /** `(c) << s` for a comparison result `c`, which C makes 0 or 1. */
  function Shifted(c: bool, s: nat): FlagWord { if c then {s} else {} }

  /* ---------------------------------------------------------------------- */
  /* Words and bit-fields                                                    */
  /* ---------------------------------------------------------------------- */

  /** A 32-bit entry word, as a number. */
  type Word = w: nat | w < 0x1_0000_0000
  /** Unsigned bit-fields of 1, 2, 3, 4, 20 and 22 bits. */
  type U1 = x: nat | x < 2
  type U2 = x: nat | x < 4
  type U3 = x: nat | x < 8
  type U4 = x: nat | x < 16
  type U20 = x: nat | x < 0x10_0000
  type U22 = x: nat | x < 0x40_0000

  /* ---------------------------------------------------------------------- */
  /* Descriptor constants                                                    */
  /* ---------------------------------------------------------------------- */

  const AP0_USER_NO_KERNEL_NO: U2 := 0
  const AP0_USER_NO_KERNEL_FULL: U2 := 1
  const AP0_USER_LIMITED_KERNEL_FULL: U2 := 2
  const AP0_USER_FULL_KERNEL_FULL: U2 := 3
  const AP1_RO: U1 := 1

  const DESCRIPTOR_NOT_PRESENT: U2 := 0
  const DESCRIPTOR_COARSE_TABLE: U2 := 1
  const DESCRIPTOR_SMALL_PAGE: U2 := 2
  const DESCRIPTOR_SMALL_PAGE_NX: U2 := 3

  /** Size of a small page, `1 << FRAME_WIDTH` with FRAME_WIDTH 12. */
  const FRAME_SIZE: nat := 4096

  /* ---------------------------------------------------------------------- */
  /* The two views of an entry                                               */
  /* ---------------------------------------------------------------------- */

  /** pte_level0_t: a pointer to a coarse (level-1) table. */
  datatype Level0 = Level0(descriptorType: U2, pxn: U1, ns: U1, shouldBeZero0: U1,
                           domain: U4, shouldBeZero1: U1, coarseTableAddr: U22)

  /** pte_level1_t: a 4 KiB small page. */
  datatype Level1 = Level1(descriptorType: U2, bufferable: U1, cacheable: U1,
                           accessPermission0: U2, tex: U3, accessPermission1: U1,
                           shareable: U1, nonGlobal: U1, frameBaseAddr: U20)

  /** The level-0 view of an entry word: each field is the next digit in its width. */
  function AsLevel0(w: Word): Level0 {
    var w1 := w / 4; var w2 := w1 / 2; var w3 := w2 / 2; var w4 := w3 / 2;
    var w5 := w4 / 16; var w6 := w5 / 2;
    Level0(w % 4, w1 % 2, w2 % 2, w3 % 2, w4 % 16, w5 % 2, w6)
  }

  /** Bits 31:2 of the entry word holding a level-0 descriptor. */
  function Level0Upper(p: Level0): nat {
    p.pxn + 2 * (p.ns + 2 * (p.shouldBeZero0 + 2 * (p.domain
      + 16 * (p.shouldBeZero1 + 2 * p.coarseTableAddr))))
  }

  /** The entry word holding a level-0 descriptor. */
  function FromLevel0(p: Level0): Word {
    p.descriptorType + 4 * Level0Upper(p)
  }

  /** The level-1 view of an entry word. */
  function AsLevel1(w: Word): Level1 {
    var w1 := w / 4; var w2 := w1 / 2; var w3 := w2 / 2; var w4 := w3 / 4;
    var w5 := w4 / 8; var w6 := w5 / 2; var w7 := w6 / 2; var w8 := w7 / 2;
    Level1(w % 4, w1 % 2, w2 % 2, w3 % 4, w4 % 8, w5 % 2, w6 % 2, w7 % 2, w8)
  }

  /** Bits 31:2 of the entry word holding a level-1 descriptor. */
  function Level1Upper(p: Level1): nat {
    p.bufferable + 2 * (p.cacheable + 2 * (p.accessPermission0
      + 4 * (p.tex + 8 * (p.accessPermission1 + 2 * (p.shareable + 2 * (p.nonGlobal
      + 2 * p.frameBaseAddr))))))
  }

  /** The entry word holding a level-1 descriptor. */
  function FromLevel1(p: Level1): Word {
    p.descriptorType + 4 * Level1Upper(p)
  }

  /** Reading a word back through the level-0 view and storing it again changes nothing. */
  lemma Level0Codec(w: Word)
    ensures FromLevel0(AsLevel0(w)) == w
  {
  }

  /** Reading a word back through the level-1 view and storing it again changes nothing. */
  lemma Level1Codec(w: Word)
    ensures FromLevel1(AsLevel1(w)) == w
  {
  }

  /** Peeling the lowest digit of width 2, 4, 8 or 16 off `a + k * x`. */
  lemma Digit2(a: nat, x: nat)
    requires a < 2
    ensures (a + 2 * x) % 2 == a && (a + 2 * x) / 2 == x
  {
  }

  lemma Digit4(a: nat, x: nat)
    requires a < 4
    ensures (a + 4 * x) % 4 == a && (a + 4 * x) / 4 == x
  {
  }

  lemma Digit8(a: nat, x: nat)
    requires a < 8
    ensures (a + 8 * x) % 8 == a && (a + 8 * x) / 8 == x
  {
  }

  lemma Digit16(a: nat, x: nat)
    requires a < 16
    ensures (a + 16 * x) % 16 == a && (a + 16 * x) / 16 == x
  {
  }

  /** Storing a level-0 descriptor and reading it back through the same view gives it back. */
  lemma Level0Decode(p: Level0)
    ensures AsLevel0(FromLevel0(p)) == p
  {
    var w := FromLevel0(p);
    var r5 := p.shouldBeZero1 + 2 * p.coarseTableAddr;
    var r4 := p.domain + 16 * r5;
    var r3 := p.shouldBeZero0 + 2 * r4;
    var r2 := p.ns + 2 * r3;
    var r1 := p.pxn + 2 * r2;
    assert w == p.descriptorType + 4 * r1;
    Digit4(p.descriptorType, r1);
    Digit2(p.pxn, r2);
    Digit2(p.ns, r3);
    Digit2(p.shouldBeZero0, r4);
    Digit16(p.domain, r5);
    Digit2(p.shouldBeZero1, p.coarseTableAddr);
    assert w / 4 == r1 && r1 / 2 == r2 && r2 / 2 == r3 && r3 / 2 == r4;
    assert r4 / 16 == r5 && r5 / 2 == p.coarseTableAddr;
  }

  /** Storing a level-1 descriptor and reading it back through the same view gives it back. */
  lemma Level1Decode(p: Level1)
    ensures AsLevel1(FromLevel1(p)) == p
  {
    var w := FromLevel1(p);
    var r7 := p.nonGlobal + 2 * p.frameBaseAddr;
    var r6 := p.shareable + 2 * r7;
    var r5 := p.accessPermission1 + 2 * r6;
    var r4 := p.tex + 8 * r5;
    var r3 := p.accessPermission0 + 4 * r4;
    var r2 := p.cacheable + 2 * r3;
    var r1 := p.bufferable + 2 * r2;
    assert w == p.descriptorType + 4 * r1;
    Digit4(p.descriptorType, r1);
    Digit2(p.bufferable, r2);
    Digit2(p.cacheable, r3);
    Digit4(p.accessPermission0, r4);
    Digit8(p.tex, r5);
    Digit2(p.accessPermission1, r6);
    Digit2(p.shareable, r7);
    Digit2(p.nonGlobal, p.frameBaseAddr);
    assert w / 4 == r1 && r1 / 2 == r2 && r2 / 2 == r3 && r3 / 4 == r4;
    assert r4 / 8 == r5 && r5 / 2 == r6 && r6 / 2 == r7 && r7 / 2 == p.frameBaseAddr;
  }

  /** A word `t + 4 * u` has `t` in its two lowest bits and is zero only when both parts are. */
  lemma LowBits(t: U2, u: nat)
    ensures (t + 4 * u) % 4 == t
    ensures t + 4 * u == 0 <==> t == 0 && u == 0
  {
  }

  /** Both views place the descriptor type in the two lowest bits. */
  lemma SharedDescriptorType(p: Level1)
    ensures AsLevel0(FromLevel1(p)).descriptorType == p.descriptorType
    ensures AsLevel1(FromLevel1(p)).descriptorType == p.descriptorType
  {
    LowBits(p.descriptorType, Level1Upper(p));
  }

  /* ---------------------------------------------------------------------- */
  /* PTE_*_ARCH queries                                                      */
  /* ---------------------------------------------------------------------- */

  /** PTE_VALID_ARCH: the whole word is non-zero. */
  predicate PteValid(w: Word) { w != 0 }

  /** PTE_PRESENT_ARCH: the descriptor type, read through the level-0 view, is non-zero. */
  predicate PtePresent(w: Word) { AsLevel0(w).descriptorType != DESCRIPTOR_NOT_PRESENT }

  /** PTE_GET_FRAME_ARCH: the level-1 frame number shifted back to an address. */
  function PteGetFrame(w: Word): (r: nat)
    ensures r % FRAME_SIZE == 0 && r <= w < r + FRAME_SIZE
  {
    AsLevel1(w).frameBaseAddr * FRAME_SIZE
  }

  /** PTE_WRITABLE_ARCH: the level-1 AP1 bit is not "read only". */
  predicate PteWritable(w: Word) { AsLevel1(w).accessPermission1 != AP1_RO }

  /** PTE_EXECUTABLE_ARCH: the level-1 descriptor is not the execute-never kind. */
  predicate PteExecutable(w: Word) { AsLevel1(w).descriptorType != DESCRIPTOR_SMALL_PAGE_NX }

  /** A present entry is valid; a valid entry that is not present has some bit above the type set. */
  lemma PresentIsValid(w: Word)
    ensures PtePresent(w) ==> PteValid(w)
    ensures PteValid(w) && !PtePresent(w) ==> w >= 4
  {
  }

  /** PTE_PRESENT_ARCH and PTE_VALID_ARCH of a stored level-0 descriptor. */
  lemma Level0Queries(p: Level0)
    ensures PtePresent(FromLevel0(p)) <==> p.descriptorType != DESCRIPTOR_NOT_PRESENT
    ensures PteValid(FromLevel0(p)) <==> p.descriptorType != 0 || Level0Upper(p) != 0
  {
    LowBits(p.descriptorType, Level0Upper(p));
  }

  /** PTE_PRESENT_ARCH, PTE_EXECUTABLE_ARCH and PTE_VALID_ARCH of a stored level-1 descriptor. */
  lemma Level1Queries(p: Level1)
    ensures PtePresent(FromLevel1(p)) <==> p.descriptorType != DESCRIPTOR_NOT_PRESENT
    ensures PteExecutable(FromLevel1(p)) <==> p.descriptorType != DESCRIPTOR_SMALL_PAGE_NX
    ensures PteValid(FromLevel1(p)) <==> p.descriptorType != 0 || Level1Upper(p) != 0
  {
    SharedDescriptorType(p);
    LowBits(p.descriptorType, Level1Upper(p));
  }

  /* ---------------------------------------------------------------------- */
  /* Decoding (get_pt_level0_flags, get_pt_level1_flags)                     */
  /* ---------------------------------------------------------------------- */

  /**
   * get_pt_level0_flags: a level-0 entry only distinguishes presence; every
   * other permission is reported as granted.
   */
  function GetLevel0Flags(p: Level0, sh: Shifts): (r: FlagWord)
    requires sh.Valid()
    ensures Has(r, sh.present) <==> p.descriptorType == DESCRIPTOR_NOT_PRESENT
    ensures Has(r, sh.user) && Has(r, sh.read) && Has(r, sh.write)
    ensures Has(r, sh.exec) && Has(r, sh.cacheable)
    ensures !Has(r, sh.global)
  {
    Shifted(p.descriptorType == DESCRIPTOR_NOT_PRESENT, sh.present) + Bit(sh.user) +
    Bit(sh.read) + Bit(sh.write) + Bit(sh.exec) + Bit(sh.cacheable)
  }

  /**
   * Bit `k` of the word get_pt_level1_flags returns: some term of its `|`
   * sets it. The last term is `bufferable << PAGE_CACHEABLE`, whose shift
   * amount is the flag VALUE `1 << PAGE_CACHEABLE_SHIFT`, not the shift; a
   * shift by 32 or more is undefined in C and contributes nothing here.
   */
  predicate Level1FlagBit(p: Level1, sh: Shifts, k: nat)
    requires sh.Valid()
  {
    var dt := p.descriptorType;
    var ap0 := p.accessPermission0;
    var ap1 := p.accessPermission1;
    || (k == sh.present && dt == DESCRIPTOR_NOT_PRESENT)
    || (k == sh.exec && dt != DESCRIPTOR_SMALL_PAGE_NX)
    || (k == sh.read && ap0 == AP0_USER_LIMITED_KERNEL_FULL)
    || (k == sh.read && ap0 == AP0_USER_FULL_KERNEL_FULL)
    || (k == sh.read && ap0 == AP0_USER_NO_KERNEL_FULL)
    || (k == sh.user && ap0 != AP0_USER_NO_KERNEL_FULL)
    || (k == sh.write && ap1 != AP1_RO && ap0 == AP0_USER_FULL_KERNEL_FULL)
    || (k == sh.write && ap1 != AP1_RO && ap0 == AP0_USER_NO_KERNEL_FULL)
    || (Pow2(sh.cacheable) < 32 && k == Pow2(sh.cacheable) && p.bufferable == 1)
  }

  /** Bit `k` of the decoded flags is set by the bufferable term rather than by its own rule. */
  predicate Stray(p: Level1, sh: Shifts, k: nat)
    requires sh.Valid()
  {
    p.bufferable == 1 && Pow2(sh.cacheable) == k
  }

  /**
   * get_pt_level1_flags, as written. Each flag follows its own rule, except
   * that the bufferable bit lands at bit position PAGE_CACHEABLE (`Stray`),
   * and the cacheable flag itself is never reported.
   */
  function GetLevel1Flags(p: Level1, sh: Shifts): (r: FlagWord)
    requires sh.Valid()
    ensures Has(r, sh.present) <==>
              p.descriptorType == DESCRIPTOR_NOT_PRESENT || Stray(p, sh, sh.present)
    ensures Has(r, sh.exec) <==>
              p.descriptorType != DESCRIPTOR_SMALL_PAGE_NX || Stray(p, sh, sh.exec)
    ensures Has(r, sh.read) <==>
              p.accessPermission0 != AP0_USER_NO_KERNEL_NO || Stray(p, sh, sh.read)
    ensures Has(r, sh.user) <==>
              p.accessPermission0 != AP0_USER_NO_KERNEL_FULL || Stray(p, sh, sh.user)
    ensures Has(r, sh.write) <==>
              (p.accessPermission1 != AP1_RO &&
               (p.accessPermission0 == AP0_USER_NO_KERNEL_FULL ||
                p.accessPermission0 == AP0_USER_FULL_KERNEL_FULL))
              || Stray(p, sh, sh.write)
    ensures !Has(r, sh.cacheable)
    ensures Has(r, sh.global) <==> Stray(p, sh, sh.global)
  {
    Level1AccessBits(p, sh);
    Level1OtherBits(p, sh);
    set k: nat | k < 32 && Level1FlagBit(p, sh, k)
  }

  /** The rules of the presence, exec, read and user bits of get_pt_level1_flags. */
  lemma Level1AccessBits(p: Level1, sh: Shifts)
    requires sh.Valid()
    ensures Level1FlagBit(p, sh, sh.present) <==>
              p.descriptorType == DESCRIPTOR_NOT_PRESENT || Stray(p, sh, sh.present)
    ensures Level1FlagBit(p, sh, sh.exec) <==>
              p.descriptorType != DESCRIPTOR_SMALL_PAGE_NX || Stray(p, sh, sh.exec)
    ensures Level1FlagBit(p, sh, sh.read) <==>
              p.accessPermission0 != AP0_USER_NO_KERNEL_NO || Stray(p, sh, sh.read)
    ensures Level1FlagBit(p, sh, sh.user) <==>
              p.accessPermission0 != AP0_USER_NO_KERNEL_FULL || Stray(p, sh, sh.user)
  {
  }

  /** The rules of the write, cacheable and global bits of get_pt_level1_flags. */
  lemma Level1OtherBits(p: Level1, sh: Shifts)
    requires sh.Valid()
    ensures Level1FlagBit(p, sh, sh.write) <==>
              (p.accessPermission1 != AP1_RO &&
               (p.accessPermission0 == AP0_USER_NO_KERNEL_FULL ||
                p.accessPermission0 == AP0_USER_FULL_KERNEL_FULL))
              || Stray(p, sh, sh.write)
    ensures !Level1FlagBit(p, sh, sh.cacheable)
    ensures Level1FlagBit(p, sh, sh.global) <==> Stray(p, sh, sh.global)
  {
  }


  /* ---------------------------------------------------------------------- */
  /* Encoding, as functions of the old descriptor                            */
  /* ---------------------------------------------------------------------- */

  /** The descriptor set_pt_level0_flags leaves in an entry that held `p`. */
  function Level0WithFlags(p: Level0, flags: FlagWord, sh: Shifts): (r: Level0)
    requires sh.Valid()
    ensures r.descriptorType == DESCRIPTOR_NOT_PRESENT <==> Has(flags, sh.present)
    ensures Has(flags, sh.present) ==>
              && r.shouldBeZero0 == 1 && r.shouldBeZero1 == 1
              && r.domain == p.domain && r.ns == p.ns
    ensures !Has(flags, sh.present) ==>
              && r.descriptorType == DESCRIPTOR_COARSE_TABLE
              && r.shouldBeZero0 == 0 && r.shouldBeZero1 == 0 && r.domain == 0 && r.ns == 0
    ensures r.pxn == p.pxn && r.coarseTableAddr == p.coarseTableAddr
  {
    if Has(flags, sh.present) then
      p.(descriptorType := DESCRIPTOR_NOT_PRESENT).(shouldBeZero0 := 1).(shouldBeZero1 := 1)
    else
      p.(descriptorType := DESCRIPTOR_COARSE_TABLE).(shouldBeZero0 := 0).(shouldBeZero1 := 0)
       .(domain := 0).(ns := 0)
  }

  /**
   * An entry set_pt_level0_flags leaves is present exactly when PAGE_NOT_PRESENT
   * is absent, and is valid either way: the should-be-zero bits are set on the
   * not-present path for that purpose.
   */
  lemma Level0FlagsQueries(p: Level0, flags: FlagWord, sh: Shifts)
    requires sh.Valid()
    ensures var w := FromLevel0(Level0WithFlags(p, flags, sh));
      PteValid(w) && (PtePresent(w) <==> !Has(flags, sh.present))
  {
    Level0Queries(Level0WithFlags(p, flags, sh));
  }

  /**
   * The value `p->cacheable = (flags & PAGE_CACHEABLE)` stores: the flag
   * value truncated to the 1-bit field, i.e. its bit 0, which is set only
   * when the cacheable flag itself is bit 0.
   */
  function CacheableStored(flags: FlagWord, sh: Shifts): (r: U1)
    requires sh.Valid()
    ensures r == 1 <==> sh.cacheable == 0 && Has(flags, sh.cacheable)
  {
    if 0 in flags * Bit(sh.cacheable) then 1 else 0
  }

  /** The descriptor type set_pt_level1_flags chooses. */
  function Level1TypeFor(flags: FlagWord, sh: Shifts): (t: U2)
    requires sh.Valid()
    ensures t == DESCRIPTOR_NOT_PRESENT <==> Has(flags, sh.present)
    ensures t == DESCRIPTOR_SMALL_PAGE_NX <==> !Has(flags, sh.present) && !Has(flags, sh.exec)
    ensures t != DESCRIPTOR_COARSE_TABLE
  {
    if Has(flags, sh.present) then DESCRIPTOR_NOT_PRESENT
    else if Has(flags, sh.exec) then DESCRIPTOR_SMALL_PAGE
    else DESCRIPTOR_SMALL_PAGE_NX
  }

  /** The descriptor set_pt_level1_flags leaves in an entry that held `p`. */
  function Level1WithFlags(p: Level1, flags: FlagWord, sh: Shifts): (r: Level1)
    requires sh.Valid()
    ensures r.descriptorType == Level1TypeFor(flags, sh)
    ensures r.bufferable == 1 && r.tex == 0 && r.shareable == 1
    ensures r.cacheable == CacheableStored(flags, sh)
    ensures r.nonGlobal == 1 <==> !Has(flags, sh.global)
    ensures r.accessPermission0 == (if Has(flags, sh.user) then AP0_USER_FULL_KERNEL_FULL
                                    else AP0_USER_NO_KERNEL_FULL)
    ensures Has(flags, sh.user) && !Has(flags, sh.write) ==> r.accessPermission1 == AP1_RO
    ensures !(Has(flags, sh.user) && !Has(flags, sh.write)) ==>
              r.accessPermission1 == p.accessPermission1
    ensures r.frameBaseAddr == p.frameBaseAddr
  {
    var p1 := p.(descriptorType := Level1TypeFor(flags, sh));
    var p2 := p1.(cacheable := CacheableStored(flags, sh)).(bufferable := 1).(tex := 0);
    var p3 := p2.(shareable := 1).(nonGlobal := if Has(flags, sh.global) then 0 else 1);
    var p4 := p3.(accessPermission0 := AP0_USER_NO_KERNEL_FULL);
    if Has(flags, sh.user) then
      var p5 := p4.(accessPermission0 := AP0_USER_FULL_KERNEL_FULL);
      if !Has(flags, sh.write) then p5.(accessPermission1 := AP1_RO) else p5
    else
      p4
  }

  /**
   * An entry set_pt_level1_flags leaves is valid whatever the flags (the
   * bufferable bit is always set), present exactly when PAGE_NOT_PRESENT is
   * absent, and, when present, executable exactly when PAGE_EXEC was asked for.
   */
  lemma Level1FlagsQueries(p: Level1, flags: FlagWord, sh: Shifts)
    requires sh.Valid()
    ensures var w := FromLevel1(Level1WithFlags(p, flags, sh));
      && PteValid(w)
      && (PtePresent(w) <==> !Has(flags, sh.present))
      && (PtePresent(w) ==> (PteExecutable(w) <==> Has(flags, sh.exec)))
  {
    var r := Level1WithFlags(p, flags, sh);
    Level1Queries(r);
    assert Level1Upper(r) >= r.bufferable == 1;
  }

  /** The descriptor set_pt_level0_present leaves: both sbz bits cleared, type coarse table. */
  function Level0Present(p: Level0): (r: Level0)
    ensures PtePresent(FromLevel0(r)) && r.descriptorType == DESCRIPTOR_COARSE_TABLE
    ensures r.shouldBeZero0 == 0 && r.shouldBeZero1 == 0
    ensures r.pxn == p.pxn && r.ns == p.ns && r.domain == p.domain
    ensures r.coarseTableAddr == p.coarseTableAddr
  {
    var r := p.(shouldBeZero0 := 0).(shouldBeZero1 := 0).(descriptorType := DESCRIPTOR_COARSE_TABLE);
    Level0Queries(r);
    r
  }

  /** The descriptor set_pt_level1_present leaves: only the type changes, to small page. */
  function Level1Present(p: Level1): (r: Level1)
    ensures PtePresent(FromLevel1(r)) && PteExecutable(FromLevel1(r))
    ensures r.(descriptorType := p.descriptorType) == p
  {
    var r := p.(descriptorType := DESCRIPTOR_SMALL_PAGE);
    Level1Queries(r);
    r
  }

  /* ---------------------------------------------------------------------- */
  /* The in-place setters                                                    */
  /* ---------------------------------------------------------------------- */

  /** One step of a setter: a store into entry `index`, or a write barrier. */
  datatype Step = Store(index: nat) | WriteBarrier

  /** get_pt_level0_flags on entry `i` of a level-0 table. */
  method GetPtLevel0Flags(pt: array<Word>, i: nat, sh: Shifts) returns (r: FlagWord)
    requires sh.Valid() && i < pt.Length
    ensures r == GetLevel0Flags(AsLevel0(pt[i]), sh)
    ensures Has(r, sh.present) <==> !PtePresent(pt[i])
  {
    r := GetLevel0Flags(AsLevel0(pt[i]), sh);
  }

  /** get_pt_level1_flags on entry `i` of a level-1 table. */
  method GetPtLevel1Flags(pt: array<Word>, i: nat, sh: Shifts) returns (r: FlagWord)
    requires sh.Valid() && i < pt.Length
    ensures r == GetLevel1Flags(AsLevel1(pt[i]), sh)
  {
    r := GetLevel1Flags(AsLevel1(pt[i]), sh);
  }

  /** set_pt_level0_flags: updates `pt[i]` one field at a time through the level-0 view. */
  method SetLevel0Flags(pt: array<Word>, i: nat, flags: FlagWord, sh: Shifts)
    requires sh.Valid() && i < pt.Length
    modifies pt
    ensures pt[i] == FromLevel0(Level0WithFlags(AsLevel0(old(pt[i])), flags, sh))
    ensures forall j :: 0 <= j < pt.Length && j != i ==> pt[j] == old(pt[j])
  {
    var p := AsLevel0(pt[i]);
    if Has(flags, sh.present) {
      p := p.(descriptorType := DESCRIPTOR_NOT_PRESENT);
      pt[i] := FromLevel0(p);
      /* keeps the entry non-zero, so that PTE_VALID_ARCH still holds */
      p := p.(shouldBeZero0 := 1);
      pt[i] := FromLevel0(p);
      p := p.(shouldBeZero1 := 1);
      pt[i] := FromLevel0(p);
    } else {
      p := p.(descriptorType := DESCRIPTOR_COARSE_TABLE);
      pt[i] := FromLevel0(p);
      p := p.(shouldBeZero0 := 0);
      pt[i] := FromLevel0(p);
      p := p.(shouldBeZero1 := 0);
      pt[i] := FromLevel0(p);
      p := p.(domain := 0);
      pt[i] := FromLevel0(p);
      p := p.(ns := 0);
      pt[i] := FromLevel0(p);
    }
  }

  /**
   * set_pt_level1_flags: assigns the fields of the level-1 view of `pt[i]`
   * in the order the source does, then stores the resulting word.
   */
  method SetLevel1Flags(pt: array<Word>, i: nat, flags: FlagWord, sh: Shifts)
    requires sh.Valid() && i < pt.Length
    modifies pt
    ensures pt[i] == FromLevel1(Level1WithFlags(AsLevel1(old(pt[i])), flags, sh))
    ensures forall j :: 0 <= j < pt.Length && j != i ==> pt[j] == old(pt[j])
  {
    ghost var p0 := AsLevel1(pt[i]);
    var p := AsLevel1(pt[i]);
    if Has(flags, sh.present) {
      p := p.(descriptorType := DESCRIPTOR_NOT_PRESENT);
    } else if Has(flags, sh.exec) {
      p := p.(descriptorType := DESCRIPTOR_SMALL_PAGE);
    } else {
      p := p.(descriptorType := DESCRIPTOR_SMALL_PAGE_NX);
    }
    p := p.(cacheable := CacheableStored(flags, sh));
    p := p.(bufferable := 1);
    p := p.(tex := 0);
    p := p.(shareable := 1);
    p := p.(nonGlobal := if Has(flags, sh.global) then 0 else 1);
    /* default access permission: kernel only */
    p := p.(accessPermission0 := AP0_USER_NO_KERNEL_FULL);
    if Has(flags, sh.user) {
      p := p.(accessPermission0 := AP0_USER_FULL_KERNEL_FULL);
      if !Has(flags, sh.write) {
        p := p.(accessPermission1 := AP1_RO);
      }
    }
    assert p == Level1WithFlags(p0, flags, sh);
    pt[i] := FromLevel1(p);
  }


  /**
   * set_pt_level0_present: both should-be-zero bits are cleared, then a write
   * barrier, then the type is set. `seen` holds the entry after each store,
   * as a concurrent table walker may observe it: none of them is a coarse
   * table with a reserved bit set unless the entry already was one.
   */
  method SetLevel0Present(pt: array<Word>, i: nat)
    returns (ghost steps: seq<Step>, ghost seen: seq<Level0>)
    requires i < pt.Length
    modifies pt
    ensures pt[i] == FromLevel0(Level0Present(AsLevel0(old(pt[i]))))
    ensures forall j :: 0 <= j < pt.Length && j != i ==> pt[j] == old(pt[j])
    ensures steps == [Store(i), Store(i), WriteBarrier, Store(i)]
    ensures |seen| == 3 && FromLevel0(seen[2]) == pt[i]
    ensures forall k :: 0 <= k < |seen| && seen[k].descriptorType != AsLevel0(old(pt[i])).descriptorType
              ==> seen[k].shouldBeZero0 == 0 && seen[k].shouldBeZero1 == 0
  {
    var p := AsLevel0(pt[i]);
    p := p.(shouldBeZero0 := 0);
    pt[i] := FromLevel0(p);
    steps, seen := [Store(i)], [p];
    p := p.(shouldBeZero1 := 0);
    pt[i] := FromLevel0(p);
    steps, seen := steps + [Store(i)], seen + [p];
    steps := steps + [WriteBarrier];
    p := p.(descriptorType := DESCRIPTOR_COARSE_TABLE);
    pt[i] := FromLevel0(p);
    steps, seen := steps + [Store(i)], seen + [p];
  }

  /** set_pt_level1_present: only the descriptor type of `pt[i]` changes. */
  method SetLevel1Present(pt: array<Word>, i: nat)
    requires i < pt.Length
    modifies pt
    ensures pt[i] == FromLevel1(Level1Present(AsLevel1(old(pt[i]))))
    ensures forall j :: 0 <= j < pt.Length && j != i ==> pt[j] == old(pt[j])
  {
    var p := AsLevel1(pt[i]);
    p := p.(descriptorType := DESCRIPTOR_SMALL_PAGE);
    pt[i] := FromLevel1(p);
  }

  /* ---------------------------------------------------------------------- */
  /* Round trips                                                             */
  /* ---------------------------------------------------------------------- */

  /** Level 0: encoding then decoding preserves presence and reports everything else granted. */
  lemma Level0RoundTrip(p: Level0, flags: FlagWord, sh: Shifts)
    requires sh.Valid()
    ensures var d := GetLevel0Flags(Level0WithFlags(p, flags, sh), sh);
      && Has(d, sh.present) == Has(flags, sh.present)
      && Has(d, sh.user) && Has(d, sh.read) && Has(d, sh.write) && Has(d, sh.exec)
  {
  }

  /**
   * Level 1, as written: user and exec survive the round trip; read is always
   * granted; write survives only for user pages without PAGE_WRITE (otherwise
   * it is whatever the stale AP1 bit says); presence survives unless the
   * bufferable bit, always 1, is shifted onto the present bit.
   */
  lemma Level1RoundTrip(p: Level1, flags: FlagWord, sh: Shifts)
    requires sh.Valid()
    ensures var d := GetLevel1Flags(Level1WithFlags(p, flags, sh), sh);
      && (Has(d, sh.present) <==> Has(flags, sh.present) || Pow2(sh.cacheable) == sh.present)
      && (Pow2(sh.cacheable) != sh.user ==> Has(d, sh.user) == Has(flags, sh.user))
      && (Pow2(sh.cacheable) != sh.exec && !Has(flags, sh.present) ==>
            Has(d, sh.exec) == Has(flags, sh.exec))
      && Has(d, sh.read)
      && (Pow2(sh.cacheable) != sh.write ==>
            Has(d, sh.write) == (!(Has(flags, sh.user) && !Has(flags, sh.write))
                                 && p.accessPermission1 != AP1_RO))
      && !Has(d, sh.cacheable)
  {
  }

  /**
   * With the bit positions HelenOS uses, PAGE_CACHEABLE is 1, so the always-set
   * bufferable bit is reported at bit 1, PAGE_NOT_PRESENT: every entry the
   * encoder makes present decodes as not present.
   */
  lemma CacheableDecodeMarksNotPresent(p: Level1, flags: FlagWord)
    requires !Has(flags, HelenShifts.present)
    ensures var r := Level1WithFlags(p, flags, HelenShifts);
      && PtePresent(FromLevel1(r))
      && Has(GetLevel1Flags(r, HelenShifts), HelenShifts.present)
  {
    Level1Queries(Level1WithFlags(p, flags, HelenShifts));
  }

  /** A user page once made read-only stays read-only when re-encoded with PAGE_WRITE. */
  lemma Level1WriteNotRestored(p: Level1, flags: FlagWord, sh: Shifts)
    requires sh.Valid()
    requires p.accessPermission1 == AP1_RO && Has(flags, sh.user) && Has(flags, sh.write)
    ensures !PteWritable(FromLevel1(Level1WithFlags(p, flags, sh)))
  {
    Level1Decode(Level1WithFlags(p, flags, sh));
  }

  /* ---------------------------------------------------------------------- */
  /* Corrected level-1 codec                                                 */
  /* ---------------------------------------------------------------------- */

  /** Bit `k` of the corrected decoding: the last term becomes `cacheable << PAGE_CACHEABLE_SHIFT`. */
  predicate Level1FlagBitFixed(p: Level1, sh: Shifts, k: nat)
    requires sh.Valid()
  {
    var dt := p.descriptorType;
    var ap0 := p.accessPermission0;
    var ap1 := p.accessPermission1;
    || (k == sh.present && dt == DESCRIPTOR_NOT_PRESENT)
    || (k == sh.exec && dt != DESCRIPTOR_SMALL_PAGE_NX)
    || (k == sh.read && ap0 == AP0_USER_LIMITED_KERNEL_FULL)
    || (k == sh.read && ap0 == AP0_USER_FULL_KERNEL_FULL)
    || (k == sh.read && ap0 == AP0_USER_NO_KERNEL_FULL)
    || (k == sh.user && ap0 != AP0_USER_NO_KERNEL_FULL)
    || (k == sh.write && ap1 != AP1_RO && ap0 == AP0_USER_FULL_KERNEL_FULL)
    || (k == sh.write && ap1 != AP1_RO && ap0 == AP0_USER_NO_KERNEL_FULL)
    || (k == sh.cacheable && p.cacheable == 1)
  }

  /** get_pt_level1_flags with the cacheable bit read from its own field into its own shift. */
  function GetLevel1FlagsFixed(p: Level1, sh: Shifts): (r: FlagWord)
    requires sh.Valid()
    ensures Has(r, sh.present) <==> p.descriptorType == DESCRIPTOR_NOT_PRESENT
    ensures Has(r, sh.exec) <==> p.descriptorType != DESCRIPTOR_SMALL_PAGE_NX
    ensures Has(r, sh.read) <==> p.accessPermission0 != AP0_USER_NO_KERNEL_NO
    ensures Has(r, sh.user) <==> p.accessPermission0 != AP0_USER_NO_KERNEL_FULL
    ensures Has(r, sh.write) <==>
              p.accessPermission1 != AP1_RO &&
              (p.accessPermission0 == AP0_USER_NO_KERNEL_FULL ||
               p.accessPermission0 == AP0_USER_FULL_KERNEL_FULL)
    ensures Has(r, sh.cacheable) <==> p.cacheable == 1
    ensures !Has(r, sh.global)
  {
    set k: nat | k < 32 && Level1FlagBitFixed(p, sh, k)
  }


  /** set_pt_level1_flags with the cacheable field set from the truth of the flag. */
  function Level1WithFlagsFixed(p: Level1, flags: FlagWord, sh: Shifts): (r: Level1)
    requires sh.Valid()
    ensures r.cacheable == 1 <==> Has(flags, sh.cacheable)
    ensures r.(cacheable := 0) == Level1WithFlags(p, flags, sh).(cacheable := 0)
  {
    Level1WithFlags(p, flags, sh).(cacheable := if Has(flags, sh.cacheable) then 1 else 0)
  }

  /**
   * The corrected codec round-trips presence, user, exec (of present pages)
   * and cacheable for every choice of bit positions; read is always granted
   * and write depends on the stale AP1 bit as before.
   */
  lemma FixedLevel1RoundTrip(p: Level1, flags: FlagWord, sh: Shifts)
    requires sh.Valid()
    ensures var d := GetLevel1FlagsFixed(Level1WithFlagsFixed(p, flags, sh), sh);
      && Has(d, sh.present) == Has(flags, sh.present)
      && Has(d, sh.user) == Has(flags, sh.user)
      && (!Has(flags, sh.present) ==> Has(d, sh.exec) == Has(flags, sh.exec))
      && Has(d, sh.read)
      && Has(d, sh.cacheable) == Has(flags, sh.cacheable)
      && !Has(d, sh.global)
      && (Has(flags, sh.user) && !Has(flags, sh.write) ==> !Has(d, sh.write))
  {
  }
}
