/** Data of ELF objects and of REL modules that several tools share. */
module RelTypes {
  import opened Bytes

  // Relocation types (PPC_RELOC_TYPE in tools/elfconsts.py)
  const R_PPC_REL24: nat := 10
  const R_RVL_NONE: nat := 201
  const R_RVL_SECT: nat := 202
  const R_RVL_STOP: nat := 203

  const SHN_UNDEF: nat := 0

  predicate KnownType(kind: nat) {
    kind <= 13 || kind == 109 || 201 <= kind <= 203
  }

  /** A relocation entry of a REL table (class RelRelocation). */
  datatype Reloc = Reloc(offset: nat, kind: nat, section: nat, addend: int)

  /** The relocation table of one destination module: an item of the dictionary `Rel.relocations`. */
  datatype ModuleTable = ModuleTable(mod: nat, table: seq<Reloc>)

  /** What a relocation entry means: patch `section:pos` with the address of `target` + `addend` in `mod`. */
  datatype Ref = Ref(section: nat, pos: nat, kind: nat, mod: nat, target: nat, addend: int)

  /** A section of a REL file (class RelSection). */
  datatype Section = Section(executable: bool, isBss: bool, secLen: nat, data: seq<Byte>, alignment: nat)

  /** A symbol of an ELF symbol table (class ElfSymbol). */
  datatype Symbol = Symbol(name: string, value: nat, size: nat, bind: nat, symType: nat, other: nat, shndx: nat)

  /** A relocation with addend of an ELF section (class ElfRela). */
  datatype Rela = Rela(offset: nat, sym: nat, kind: nat, addend: int)

  // ----- counting references -----

  /** How often a reference occurs. */
  function Count(refs: seq<Ref>, r: Ref): nat {
    if refs == [] then 0 else (if refs[0] == r then 1 else 0) + Count(refs[1..], r)
  }

  lemma {:induction false} CountIsMultiset(refs: seq<Ref>, r: Ref)
    ensures Count(refs, r) == multiset(refs)[r]
  {
    if refs != [] {
      assert refs == [refs[0]] + refs[1..];
      CountIsMultiset(refs[1..], r);
    }
  }

  lemma {:induction false} CountConcat(a: seq<Ref>, b: seq<Ref>, r: Ref)
    ensures Count(a + b, r) == Count(a, r) + Count(b, r)
  {
    if a == [] {
      assert a + b == b;
    } else {
      assert (a + b)[0] == a[0] && (a + b)[1..] == a[1..] + b;
      CountConcat(a[1..], b, r);
    }
  }

  lemma CountOne(x: Ref, r: Ref)
    ensures Count([x], r) == (if x == r then 1 else 0) && Count([], r) == 0
  {
    assert [x][1..] == [];
  }
}
