/*
 * Generic kernel helpers (kernel/generic/include/macros.h): address
 * intervals, minimum and maximum, 32-bit halves of a 64-bit value, size
 * unit conversions, the RANDI pseudorandom step and character classes.
 *
 * `uintptr_t` and `size_t` are unsigned machine words, so sums wrap around
 * modulo the word size; the word size is a parameter (`Arch`).
 */
module Macros {

  /** The word size of the target: 32 or 64 bits. */
  datatype Arch = Arch32 | Arch64
  {
    /** 2 to the power of the word width. */
    function Modulus(): nat {
      if Arch32? then 0x1_0000_0000 else 0x1_0000_0000_0000_0000
    }
  }

  /** An unsigned machine word of `arch`. */
  predicate IsWord(arch: Arch, x: nat) { x < arch.Modulus() }

  /** The wrapped-around sum of two words. */
  function AddWord(arch: Arch, x: nat, y: nat): (r: nat)
    ensures IsWord(arch, r)
    ensures x + y < arch.Modulus() ==> r == x + y
  {
    (x + y) % arch.Modulus()
  }

  /* ---------------------------------------------------------------------- */
  /* Intervals                                                               */
  /* ---------------------------------------------------------------------- */

  /** Address `x` lies in the interval of `size` bytes starting at `start`. */
  predicate InInterval(x: nat, start: nat, size: nat) {
    start <= x < start + size
  }

  /** Neither interval reaches the end of the address space. */
  predicate NoWrap(arch: Arch, s1: nat, sz1: nat, s2: nat, sz2: nat) {
    s1 + sz1 < arch.Modulus() && s2 + sz2 < arch.Modulus()
  }

  /** overlaps: each interval starts before the other one's (wrapped) end. */
  function Overlaps(arch: Arch, s1: nat, sz1: nat, s2: nat, sz2: nat): (r: bool)
    ensures NoWrap(arch, s1, sz1, s2, sz2) ==> (r <==> s1 < s2 + sz2 && s2 < s1 + sz1)
  {
    var e1 := AddWord(arch, s1, sz1);
    var e2 := AddWord(arch, s2, sz2);
    s1 < e2 && s2 < e1
  }

  /** The order of the two intervals does not matter, wrapped or not. */
  lemma OverlapsSymmetric(arch: Arch, s1: nat, sz1: nat, s2: nat, sz2: nat)
    ensures Overlaps(arch, s1, sz1, s2, sz2) == Overlaps(arch, s2, sz2, s1, sz1)
  {
  }

  /** Without wrap-around, two non-empty intervals overlap exactly when they share an address. */
  lemma OverlapsMeaning(arch: Arch, s1: nat, sz1: nat, s2: nat, sz2: nat)
    requires NoWrap(arch, s1, sz1, s2, sz2) && sz1 > 0 && sz2 > 0
    ensures Overlaps(arch, s1, sz1, s2, sz2) <==>
              exists x :: InInterval(x, s1, sz1) && InInterval(x, s2, sz2)
  {
    if Overlaps(arch, s1, sz1, s2, sz2) {
      var x := if s1 < s2 then s2 else s1;
      assert InInterval(x, s1, sz1) && InInterval(x, s2, sz2);
    }
  }

  /** iswithin: the second interval starts no earlier and ends no later than the first. */
  function IsWithin(arch: Arch, s1: nat, sz1: nat, s2: nat, sz2: nat): (r: bool)
    ensures r ==> s1 <= s2
    ensures NoWrap(arch, s1, sz1, s2, sz2) ==> (r <==> s1 <= s2 && s2 + sz2 <= s1 + sz1)
  {
    var e1 := AddWord(arch, s1, sz1);
    var e2 := AddWord(arch, s2, sz2);
    s1 <= s2 && e1 >= e2
  }

  /** Without wrap-around, a non-empty interval is within another exactly when all its addresses are. */
  lemma IsWithinMeaning(arch: Arch, s1: nat, sz1: nat, s2: nat, sz2: nat)
    requires NoWrap(arch, s1, sz1, s2, sz2) && sz2 > 0
    ensures IsWithin(arch, s1, sz1, s2, sz2) <==>
              forall x :: InInterval(x, s2, sz2) ==> InInterval(x, s1, sz1)
  {
    if !IsWithin(arch, s1, sz1, s2, sz2) {
      if s1 > s2 {
        assert InInterval(s2, s2, sz2) && !InInterval(s2, s1, sz1);
      } else {
        assert InInterval(s2 + sz2 - 1, s2, sz2) && !InInterval(s2 + sz2 - 1, s1, sz1);
      }
    }
  }

  /** Every interval is within itself, even one that wraps around. */
  lemma IsWithinReflexive(arch: Arch, s: nat, sz: nat)
    ensures IsWithin(arch, s, sz, s, sz)
  {
  }

  /** Without wrap-around, a non-empty interval within another overlaps it. */
  lemma IsWithinOverlaps(arch: Arch, s1: nat, sz1: nat, s2: nat, sz2: nat)
    requires NoWrap(arch, s1, sz1, s2, sz2) && sz2 > 0
    requires IsWithin(arch, s1, sz1, s2, sz2)
    ensures Overlaps(arch, s1, sz1, s2, sz2)
  {
    assert InInterval(s2, s2, sz2);
  }

  /* ---------------------------------------------------------------------- */
  /* Minimum and maximum                                                     */
  /* ---------------------------------------------------------------------- */

  function Min(a: int, b: int): (r: int)
    ensures r <= a && r <= b && (r == a || r == b)
  {
    if a < b then a else b
  }

  function Max(a: int, b: int): (r: int)
    ensures r >= a && r >= b && (r == a || r == b)
  {
    if a > b then a else b
  }

  function Min3(a: int, b: int, c: int): (r: int)
    ensures r <= a && r <= b && r <= c && (r == a || r == b || r == c)
  {
    if a < b then Min(a, c) else Min(b, c)
  }

  function Max3(a: int, b: int, c: int): (r: int)
    ensures r >= a && r >= b && r >= c && (r == a || r == b || r == c)
  {
    if a > b then Max(a, c) else Max(b, c)
  }

  /* ---------------------------------------------------------------------- */
  /* 32-bit halves                                                           */
  /* ---------------------------------------------------------------------- */

  const TWO32: nat := 0x1_0000_0000

  /** LOWER32: bits 31:0 of a 64-bit value. */
  function Lower32(x: nat): (r: nat)
    ensures r < TWO32
  {
    x % TWO32
  }

  /** UPPER32: bits 63:32 of a 64-bit value. */
  function Upper32(x: nat): (r: nat)
    ensures r < TWO32
  {
    (x / TWO32) % TWO32
  }

  /** MERGE_LOUP32: `lo` in bits 31:0 and `up` in bits 63:32; the two never share a bit. */
  function MergeLoUp32(lo: nat, up: nat): (r: nat)
    ensures r < TWO32 * TWO32
  {
    lo % TWO32 + (up % TWO32) * TWO32
  }

  /** Splitting a 64-bit value and merging the halves gives it back. */
  lemma MergeSplit(x: nat)
    requires x < TWO32 * TWO32
    ensures MergeLoUp32(Lower32(x), Upper32(x)) == x
  {
  }

  /** Merging two 32-bit halves and splitting the result gives them back. */
  lemma SplitMerge(lo: nat, up: nat)
    requires lo < TWO32 && up < TWO32
    ensures Lower32(MergeLoUp32(lo, up)) == lo && Upper32(MergeLoUp32(lo, up)) == up
  {
  }

  /* ---------------------------------------------------------------------- */
  /* Size conversions                                                        */
  /* ---------------------------------------------------------------------- */

  /** SIZE2KB: the whole kibibytes in `size` bytes (a right shift by 10, rounding down). */
  function Size2Kb(size: nat): (r: nat)
    ensures r * 1024 <= size < (r + 1) * 1024
  {
    size / 1024
  }

  /** SIZE2MB: the whole mebibytes in `size` bytes. */
  function Size2Mb(size: nat): (r: nat)
    ensures r * 0x10_0000 <= size < (r + 1) * 0x10_0000
  {
    size / 0x10_0000
  }

  /** KB2SIZE: a left shift by 10 of a word, losing the bits shifted out. */
  function Kb2Size(arch: Arch, kb: nat): (r: nat)
    ensures IsWord(arch, r)
    ensures kb * 1024 < arch.Modulus() ==> r == kb * 1024
  {
    (kb * 1024) % arch.Modulus()
  }

  /** MB2SIZE: a left shift by 20 of a word. */
  function Mb2Size(arch: Arch, mb: nat): (r: nat)
    ensures IsWord(arch, r)
    ensures mb * 0x10_0000 < arch.Modulus() ==> r == mb * 0x10_0000
  {
    (mb * 0x10_0000) % arch.Modulus()
  }

  /** Converting kibibytes to bytes and back is the identity when the shift does not overflow. */
  lemma KbRoundTrip(arch: Arch, kb: nat)
    requires kb * 1024 < arch.Modulus()
    ensures Size2Kb(Kb2Size(arch, kb)) == kb
  {
  }

  /** Converting mebibytes to bytes and back is the identity when the shift does not overflow. */
  lemma MbRoundTrip(arch: Arch, mb: nat)
    requires mb * 0x10_0000 < arch.Modulus()
    ensures Size2Mb(Mb2Size(arch, mb)) == mb
  {
  }

  /* ---------------------------------------------------------------------- */
  /* RANDI                                                                   */
  /* ---------------------------------------------------------------------- */

  const RANDI_MULTIPLIER: nat := 1103515245
  const RANDI_INCREMENT: nat := 12345

  /** RANDI: the seed's next value, `1103515245 * seed + 12345` modulo the word size. */
  function Randi(arch: Arch, seed: nat): (r: nat)
    ensures IsWord(arch, r)
  {
    (RANDI_MULTIPLIER * seed + RANDI_INCREMENT) % arch.Modulus()
  }

  /**
   * The inverse of the RANDI multiplier modulo the word size; it exists
   * because the multiplier is odd.
   */
  function InverseMultiplier(arch: Arch): (r: nat)
    ensures (r * RANDI_MULTIPLIER) % arch.Modulus() == 1
  {
    if arch.Arch32? then 4005161829 else 17850689345304521573
  }

  /** The seed RANDI came from: undoes the increment, then the multiplication. */
  function RandiPrevious(arch: Arch, seed: nat): (r: nat)
    ensures IsWord(arch, r)
  {
    (InverseMultiplier(arch) * (seed + arch.Modulus() - RANDI_INCREMENT % arch.Modulus()))
      % arch.Modulus()
  }

  /** `s + m * t` leaves remainder `s` modulo `m`. */
  lemma ModAddMultiple(arch: Arch, s: nat, t: int)
    requires IsWord(arch, s)
    ensures (s + arch.Modulus() * t) % arch.Modulus() == s
  {
  }

  /**
   * RANDI is a permutation of the words: every seed is recovered from its
   * successor, so no two seeds share a successor.
   */
  lemma RandiInvertible(arch: Arch, seed: nat)
    requires IsWord(arch, seed)
    ensures RandiPrevious(arch, Randi(arch, seed)) == seed
  {
    var m := arch.Modulus();
    var inv := InverseMultiplier(arch);
    var y := RANDI_MULTIPLIER * seed + RANDI_INCREMENT;
    var q := y / m;
    assert Randi(arch, seed) == y - q * m;
    var k := (inv * RANDI_MULTIPLIER - 1) / m;
    assert inv * RANDI_MULTIPLIER == 1 + k * m;
    var t := k * seed - inv * q + inv;
    assert inv * (Randi(arch, seed) + m - RANDI_INCREMENT) == seed + m * t;
    ModAddMultiple(arch, seed, t);
  }

  /* ---------------------------------------------------------------------- */
  /* Character classes                                                       */
  /* ---------------------------------------------------------------------- */

  /** isdigit: one of the ten decimal digits. */
  predicate IsDigit(c: char) { '0' <= c <= '9' }

  /** islower: a lower-case ASCII letter. */
  predicate IsLower(c: char) { 'a' <= c <= 'z' }

  /** isupper: an upper-case ASCII letter. */
  predicate IsUpper(c: char) { 'A' <= c <= 'Z' }

  /** isspace: space, tab, line feed or carriage return, and nothing else. */
  predicate IsSpace(c: char) { c == ' ' || c == '\t' || c == '\n' || c == '\r' }

  /** The ranges hold exactly the listed characters. */
  lemma CharClasses(c: char)
    ensures IsDigit(c) <==> c in "0123456789"
    ensures IsLower(c) <==> c in "abcdefghijklmnopqrstuvwxyz"
    ensures IsUpper(c) <==> c in "ABCDEFGHIJKLMNOPQRSTUVWXYZ"
    ensures IsSpace(c) <==> c in " \t\n\r"
  {
  }

  /** No character is in two of the classes. */
  lemma CharClassesDisjoint(c: char)
    ensures !(IsDigit(c) && IsLower(c)) && !(IsDigit(c) && IsUpper(c))
    ensures !(IsLower(c) && IsUpper(c))
    ensures IsSpace(c) ==> !IsDigit(c) && !IsLower(c) && !IsUpper(c)
  {
  }
}
