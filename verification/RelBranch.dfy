/** The relative branch word R_PPC_REL24: a 24-bit word displacement between the six opcode bits and
    the AA and LK bits (System V ABI PowerPC Processor Supplement, chapter 4, "Relocation Types"). */
module RelBranch {
  import opened Bits
  import opened Bytes

  /** `x & 0xFFFFFFFF` of a possibly negative difference. */
  function Wrap32(d: int): U32 {
    d % 0x1_0000_0000
  }

  /** `(word & mask) | (offset & ~mask)` with mask 0xFC000003: opcode, displacement field, AA and LK. */
  function PatchedWord(word: U32, offset: U32): (w: U32)
    ensures w / 0x400_0000 == word / 0x400_0000 && w % 4 == word % 4
  {
    word / 0x400_0000 * 0x400_0000 + offset / 4 % 0x100_0000 * 4 + word % 4
  }

  /** The arithmetic of `PatchedWord` is what the masks do to 32-bit words. */
  lemma MaskMeaning(word: bv32, offset: bv32)
    ensures (word & 0xFC00_0003) | (offset & !0xFC00_0003)
         == word / 0x400_0000 * 0x400_0000 + offset / 4 % 0x100_0000 * 4 + word % 4
  {
  }

  /** The displacement a branch word encodes: its 26-bit field with AA and LK cleared, sign-extended. */
  function Displacement(word: U32): int {
    var field := word % 0x400_0000 - word % 4;
    if field < 0x200_0000 then field else field - 0x400_0000
  }

  predicate InBranchRange(d: int) {
    d % 4 == 0 && -0x200_0000 <= d < 0x200_0000
  }

  /** The distance that 32-bit addresses tell: `d` modulo 2^32, as a signed number. */
  function Nearest(d: int): (n: int)
    ensures Wrap32(n) == Wrap32(d) && -0x8000_0000 <= n < 0x8000_0000
  {
    if Wrap32(d) < 0x8000_0000 then Wrap32(d) else Wrap32(d) - 0x1_0000_0000
  }

  /** The AA bit: the displacement is the address itself. */
  predicate IsAbsolute(word: U32) {
    word / 2 % 2 == 1
  }

  /** Where the processor goes from a branch word at address `at`. */
  function BranchTarget(word: U32, at: int): U32 {
    Wrap32(if IsAbsolute(word) then Displacement(word) else at + Displacement(word))
  }

  // ----- what the patched branch does -----

  /** A relative branch at `site`, patched with its distance, reaches `goal` exactly when the distance is a multiple
      of four that 26 signed bits can hold. */
  lemma BranchReaches(word: U32, site: int, goal: int)
    requires !IsAbsolute(word)
    ensures BranchTarget(PatchedWord(word, Wrap32(goal - site)), site) == Wrap32(goal)
       <==> InBranchRange(Nearest(goal - site))
  {
    var d := Nearest(goal - site);
    var w := PatchedWord(word, Wrap32(d));
    PatchedDisplacement(word, d);
    SameLowBits(word, w);
    SumReaches(site, goal, Displacement(w), d);
  }

  lemma PatchedDisplacement(word: U32, d: int)
    ensures var x := Displacement(PatchedWord(word, Wrap32(d)));
            -0x200_0000 <= x < 0x200_0000 && (x == d <==> InBranchRange(d))
  {
    var f := Wrap32(d) / 4 % 0x100_0000;
    DisplacementOfParts(word / 0x400_0000, f, word % 4);
    FieldOfDistance(d);
  }

  lemma SameLowBits(word: U32, w: U32)
    requires w % 4 == word % 4
    ensures IsAbsolute(w) <==> IsAbsolute(word)
  {
    SecondBit(w);
    SecondBit(word);
  }

  lemma SecondBit(w: U32)
    ensures w / 2 % 2 == w % 4 / 2
  {
    var q, r := w / 4, w % 4;
    DivModUnique(w, 2, 2 * q + r / 2, r % 2);
    DivModUnique(2 * q + r / 2, 2, q, r / 2);
  }

  /** Numbers that agree modulo 2^32 differ by whole turns. */
  lemma Turns(a: int, b: int) returns (k: int)
    requires Wrap32(a) == Wrap32(b)
    ensures a == b + k * 0x1_0000_0000
  {
    k := a / 0x1_0000_0000 - b / 0x1_0000_0000;
  }

  lemma SumReaches(site: int, goal: int, x: int, d: int)
    requires -0x200_0000 <= x < 0x200_0000 && -0x8000_0000 <= d < 0x8000_0000 && Wrap32(d) == Wrap32(goal - site)
    ensures Wrap32(site + x) == Wrap32(goal) <==> x == d
  {
    var q := Turns(goal - site, d);
    if x == d {
      DivModUnique(goal, 0x1_0000_0000, (site + x) / 0x1_0000_0000 + q, (site + x) % 0x1_0000_0000);
    } else if Wrap32(site + x) == Wrap32(goal) {
      var k := Turns(goal, site + x);
      MulAway(k - q, 0x1_0000_0000);
    }
  }

  lemma DisplacementOfParts(high: nat, field: nat, low: nat)
    requires high < 64 && field < 0x100_0000 && low < 4
    ensures Displacement(high * 0x400_0000 + field * 4 + low)
         == if field < 0x80_0000 then field * 4 else field * 4 - 0x400_0000
  {
  }

  lemma FieldOfDistance(d: int)
    ensures var f := Wrap32(d) / 4 % 0x100_0000;
            (if f < 0x80_0000 then f * 4 else f * 4 - 0x400_0000) == d <==> InBranchRange(d)
  {
    var q, g := d / 0x1_0000_0000, d / 4;
    var h, f := g / 0x100_0000, g % 0x100_0000;
    DivModUnique(Wrap32(d), 4, g - 0x4000_0000 * q, d % 4);
    DivModUnique(g - 0x4000_0000 * q, 0x100_0000, h - 64 * q, f);
    SignExtension(d, g, h, f);
  }

  lemma SignExtension(d: int, g: int, h: int, f: nat)
    requires g == d / 4 && g == h * 0x100_0000 + f && f < 0x100_0000
    ensures (if f < 0x80_0000 then f * 4 else f * 4 - 0x400_0000) == d <==> InBranchRange(d)
  {
    assert d == 4 * g + d % 4;
  }
}
