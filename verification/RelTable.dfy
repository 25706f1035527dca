/** The delta coding of REL relocation tables: the encoder of tools/build_rel.py and the
    decoder of tools/slice_rel.py. */
module RelTable {
  import opened RelTypes
  import opened Wrappers

  // ----- decoder -----

  predicate IsRef(r: Reloc) {
    r.kind < R_RVL_NONE
  }

  /** The references of a table that is read from position `pos` of section `sec` onwards. */
  function ReadRefs(mod: nat, table: seq<Reloc>, pos: nat, sec: nat): seq<Ref> {
    if table == [] then []
    else
      var r := table[0];
      if r.kind == R_RVL_SECT then ReadRefs(mod, table[1..], 0, r.section)
      else
        var here := if IsRef(r) then [Ref(sec, pos + r.offset, r.kind, mod, r.section, r.addend)] else [];
        here + ReadRefs(mod, table[1..], pos + r.offset, sec)
  }

  /** All references of a module, in table order. */
  function AllRefs(tables: seq<ModuleTable>): seq<Ref> {
    if tables == [] then []
    else ReadRefs(tables[0].mod, tables[0].table, 0, 0) + AllRefs(tables[1..])
  }

  /** Where a table read from `pos` of `sec` leaves the decoder. */
  function EndSection(table: seq<Reloc>, sec: nat): nat {
    if table == [] then sec
    else EndSection(table[1..], if table[0].kind == R_RVL_SECT then table[0].section else sec)
  }

  function EndPos(table: seq<Reloc>, pos: nat): nat {
    if table == [] then pos
    else EndPos(table[1..], if table[0].kind == R_RVL_SECT then 0 else pos + table[0].offset)
  }

  lemma {:induction false} ReadRefsConcat(mod: nat, a: seq<Reloc>, b: seq<Reloc>, pos: nat, sec: nat)
    ensures ReadRefs(mod, a + b, pos, sec)
         == ReadRefs(mod, a, pos, sec) + ReadRefs(mod, b, EndPos(a, pos), EndSection(a, sec))
  {
    if a == [] {
      assert a + b == b;
    } else {
      var r := a[0];
      assert (a + b)[0] == r && (a + b)[1..] == a[1..] + b;
      if r.kind == R_RVL_SECT {
        ReadRefsConcat(mod, a[1..], b, 0, r.section);
      } else {
        ReadRefsConcat(mod, a[1..], b, pos + r.offset, sec);
      }
    }
  }

  lemma {:induction false} AllRefsSnoc(tables: seq<ModuleTable>, t: ModuleTable)
    ensures AllRefs(tables + [t]) == AllRefs(tables) + ReadRefs(t.mod, t.table, 0, 0)
  {
    if tables == [] {
      assert tables + [t] == [t] && AllRefs([t][1..]) == [];
    } else {
      assert (tables + [t])[0] == tables[0] && (tables + [t])[1..] == tables[1..] + [t];
      AllRefsSnoc(tables[1..], t);
    }
  }

  /** `read_reloc_refs`: one running position and section for each table. */
  method ReadRelocRefs(tables: seq<ModuleTable>) returns (refs: seq<Ref>)
    ensures refs == AllRefs(tables)
  {
    refs := [];
    for i := 0 to |tables|
      invariant refs == AllRefs(tables[..i])
    {
      var mod, table := tables[i].mod, tables[i].table;
      var currPos: nat, currSection: nat := 0, 0;
      for j := 0 to |table|
        invariant refs + ReadRefs(mod, table[j..], currPos, currSection)
               == AllRefs(tables[..i]) + ReadRefs(mod, table, 0, 0)
      {
        var reloc := table[j];
        assert table[j..][0] == reloc && table[j..][1..] == table[j + 1..];
        ghost var before, pos: nat, sec: nat := refs, currPos, currSection;
        currPos := currPos + reloc.offset;
        if reloc.kind == R_RVL_SECT {
          currPos := 0;
          currSection := reloc.section;
        } else if reloc.kind < R_RVL_NONE {
          refs := refs + [Ref(currSection, currPos, reloc.kind, mod, reloc.section, reloc.addend)];
        }
        assert refs + ReadRefs(mod, table[j + 1..], currPos, currSection)
            == before + ReadRefs(mod, table[j..], pos, sec);
      }
      AllRefsSnoc(tables[..i], tables[i]);
      assert tables[..i + 1] == tables[..i] + [tables[i]];
    }
    assert tables[..|tables|] == tables;
  }

  /** The section that entry `i` stands in: the one that the last change before it names. */
  function SectionAt(table: seq<Reloc>, i: nat): nat
    requires i <= |table|
  {
    if i == 0 then 0 else if table[i - 1].kind == 202 then table[i - 1].section else SectionAt(table, i - 1)
  }

  /** How far the entries since the last change of section reach. */
  function ReachBefore(table: seq<Reloc>, i: nat): nat
    requires i <= |table|
  {
    if i == 0 || table[i - 1].kind == 202 then 0 else ReachBefore(table, i - 1) + table[i - 1].offset
  }

  /** What entry `i` of a table says. */
  function RefAt(mod: nat, table: seq<Reloc>, i: nat): Ref
    requires i < |table|
  {
    var r := table[i];
    Ref(SectionAt(table, i), ReachBefore(table, i) + r.offset, r.kind, mod, r.section, r.addend)
  }

  /** What the first `n` entries say: those of the types below 201, in order. */
  function Said(mod: nat, table: seq<Reloc>, n: nat): seq<Ref>
    requires n <= |table|
  {
    if n == 0 then [] else Said(mod, table, n - 1) + if table[n - 1].kind < 201 then [RefAt(mod, table, n - 1)] else []
  }

  lemma {:induction false} SaidByFirst(mod: nat, table: seq<Reloc>, n: nat)
    requires n <= |table|
    ensures ReadRefs(mod, table[..n], 0, 0) == Said(mod, table, n)
    ensures EndPos(table[..n], 0) == ReachBefore(table, n) && EndSection(table[..n], 0) == SectionAt(table, n)
  {
    if n > 0 {
      var front, last := table[..n - 1], [table[n - 1]];
      assert table[..n] == front + last && last[1..] == [];
      SaidByFirst(mod, table, n - 1);
      ReadRefsConcat(mod, front, last, 0, 0);
      EndPosConcat(front, last, 0);
      EndSectionConcat(front, last, 0);
    } else {
      assert table[..0] == [];
    }
  }

  lemma {:induction false} EndPosConcat(a: seq<Reloc>, b: seq<Reloc>, pos: nat)
    ensures EndPos(a + b, pos) == EndPos(b, EndPos(a, pos))
  {
    if a == [] {
      assert a + b == b;
    } else {
      assert (a + b)[0] == a[0] && (a + b)[1..] == a[1..] + b;
      EndPosConcat(a[1..], b, if a[0].kind == R_RVL_SECT then 0 else pos + a[0].offset);
    }
  }

  lemma {:induction false} EndSectionConcat(a: seq<Reloc>, b: seq<Reloc>, sec: nat)
    ensures EndSection(a + b, sec) == EndSection(b, EndSection(a, sec))
  {
    if a == [] {
      assert a + b == b;
    } else {
      assert (a + b)[0] == a[0] && (a + b)[1..] == a[1..] + b;
      EndSectionConcat(a[1..], b, if a[0].kind == R_RVL_SECT then a[0].section else sec);
    }
  }

  /** Any table, read from its beginning: each entry of a type below 201 says where it stands, by the last change of
      section and the sum of the gaps since, and what it names. */
  lemma ReadRefsMeaning(mod: nat, table: seq<Reloc>)
    ensures ReadRefs(mod, table, 0, 0) == Said(mod, table, |table|)
  {
    assert table[..|table|] == table;
    SaidByFirst(mod, table, |table|);
  }

  // ----- encoder -----

  type ElfReloc = (Rela, Symbol)

  const MAX_GAP: nat := 0xFFFF

  function SectionChange(secIdx: nat): Reloc {
    Reloc(0, R_RVL_SECT, secIdx, 0)
  }

  const Filler := Reloc(MAX_GAP, R_RVL_NONE, 0, 0)
  const Stop := Reloc(0, R_RVL_STOP, 0, 0)

  /** The entry of one ELF relocation behind as many fillers as its distance needs. */
  function Entries(gap: nat, e: ElfReloc): seq<Reloc> {
    if gap > MAX_GAP then [Filler] + Entries(gap - MAX_GAP, e)
    else [Reloc(gap, e.0.kind, e.1.shndx, e.1.value + e.0.addend)]
  }

  predicate SortedFrom(relocs: seq<ElfReloc>, pos: nat) {
    relocs == [] || (pos <= relocs[0].0.offset && SortedFrom(relocs[1..], relocs[0].0.offset))
  }

  function EncodeFrom(relocs: seq<ElfReloc>, pos: nat): seq<Reloc>
    requires SortedFrom(relocs, pos)
  {
    if relocs == [] then []
    else Entries(relocs[0].0.offset - pos, relocs[0]) + EncodeFrom(relocs[1..], relocs[0].0.offset)
  }

  /** The table for the relocations of one section against one module. */
  function EncodeSection(relocs: seq<ElfReloc>, secIdx: nat): seq<Reloc>
    requires SortedFrom(relocs, 0)
  {
    [SectionChange(secIdx)] + EncodeFrom(relocs, 0)
  }

  /** `convert_to_rel_relocations`; `None` stands for its failing assertion. */
  method ConvertToRelRelocations(elfRelocs: seq<ElfReloc>, secIdx: nat) returns (res: Option<seq<Reloc>>)
    ensures res.Some? <==> SortedFrom(elfRelocs, 0)
    ensures res.Some? ==> res.value == EncodeSection(elfRelocs, secIdx)
  {
    var resRelocs := [SectionChange(secIdx)];
    var pos: nat := 0;
    for i := 0 to |elfRelocs|
      invariant SortedFrom(elfRelocs, 0) <==> SortedFrom(elfRelocs[i..], pos)
      invariant SortedFrom(elfRelocs, 0) ==>
        resRelocs + EncodeFrom(elfRelocs[i..], pos) == EncodeSection(elfRelocs, secIdx)
    {
      var (rel, sym) := elfRelocs[i];
      assert elfRelocs[i..][0] == elfRelocs[i] && elfRelocs[i..][1..] == elfRelocs[i + 1..];
      if rel.offset < pos {
        return None;
      }
      var offset: nat := rel.offset - pos;
      ghost var before, gap: nat := resRelocs, offset;
      while offset > MAX_GAP
        invariant pos + offset == rel.offset
        invariant resRelocs + Entries(offset, (rel, sym)) == before + Entries(gap, (rel, sym))
      {
        pos := pos + MAX_GAP;
        resRelocs := resRelocs + [Filler];
        offset := rel.offset - pos;
      }
      pos := rel.offset;
      resRelocs := resRelocs + [Reloc(offset, rel.kind, sym.shndx, sym.value + rel.addend)];
      assert resRelocs == before + Entries(gap, (rel, sym));
    }
    return Some(resRelocs);
  }

  // ----- the decoder undoes the encoder -----

  /** What the ELF relocations of a section say, read without any table. */
  function Wanted(mod: nat, relocs: seq<ElfReloc>, sec: nat): (refs: seq<Ref>)
    ensures |refs| == |relocs|
  {
    seq(|relocs|, i requires 0 <= i < |relocs| =>
      var (rel, sym) := relocs[i]; Ref(sec, rel.offset, rel.kind, mod, sym.shndx, sym.value + rel.addend))
  }

  predicate RealTypes(relocs: seq<ElfReloc>) {
    forall i :: 0 <= i < |relocs| ==> relocs[i].0.kind < R_RVL_NONE
  }

  lemma {:induction false} EntriesRead(mod: nat, gap: nat, e: ElfReloc, pos: nat, sec: nat)
    requires e.0.kind < R_RVL_NONE
    ensures ReadRefs(mod, Entries(gap, e), pos, sec)
         == [Ref(sec, pos + gap, e.0.kind, mod, e.1.shndx, e.1.value + e.0.addend)]
    ensures EndPos(Entries(gap, e), pos) == pos + gap && EndSection(Entries(gap, e), sec) == sec
    decreases gap
  {
    var t := Entries(gap, e);
    if gap > MAX_GAP {
      EntriesRead(mod, gap - MAX_GAP, e, pos + MAX_GAP, sec);
      assert t[1..] == Entries(gap - MAX_GAP, e);
    } else {
      assert t[1..] == [];
    }
  }

  /** An entry with a gap of any size: fillers of 0xFFFF each, only as many as are needed, and the rest with the
      entry. */
  lemma {:induction false} EntriesMeaning(gap: nat, e: ElfReloc)
    ensures var es := Entries(gap, e);
            var n := |es| - 1;
            && n >= 0 && (forall i :: 0 <= i < n ==> es[i] == Reloc(0xFFFF, 201, 0, 0))
            && 0 <= gap - 0xFFFF * n <= 0xFFFF && (n > 0 ==> gap - 0xFFFF * n > 0)
            && es[n] == Reloc(gap - 0xFFFF * n, e.0.kind, e.1.shndx, e.1.value + e.0.addend)
  {
    if gap > MAX_GAP { EntriesMeaning(gap - MAX_GAP, e); }
  }

  /** Two relocations of section 4, the second one 0x20000 behind the first. */
  lemma EncodedExample(a: Symbol, b: Symbol)
    requires a.shndx == 1 && a.value == 0x10 && b.shndx == 2 && b.value == 0
    ensures var relocs := [(Rela(8, 1, 6, 4), a), (Rela(0x20008, 2, 10, -4), b)];
            SortedFrom(relocs, 0)
            && EncodeSection(relocs, 4) == [Reloc(0, 202, 4, 0), Reloc(8, 6, 1, 0x14), Reloc(0xFFFF, 201, 0, 0),
                                            Reloc(0xFFFF, 201, 0, 0), Reloc(2, 10, 2, -4)]
  {
    var e, f: ElfReloc := (Rela(8, 1, 6, 4), a), (Rela(0x20008, 2, 10, -4), b);
    assert [e, f][1..] == [f] && [f][1..] == [];
    assert Entries(2, f) == [Reloc(2, 10, 2, -4)];
    assert Entries(0x10001, f) == [Filler] + Entries(2, f);
    assert Entries(0x20000, f) == [Filler] + Entries(0x10001, f);
    assert EncodeFrom([f], 8) == Entries(0x20000, f) + [];
    assert EncodeFrom([e, f], 0) == [Reloc(8, 6, 1, 0x14)] + EncodeFrom([f], 8);
  }

  lemma {:induction false} EncodeFromRead(mod: nat, relocs: seq<ElfReloc>, pos: nat, sec: nat)
    requires SortedFrom(relocs, pos) && RealTypes(relocs)
    ensures ReadRefs(mod, EncodeFrom(relocs, pos), pos, sec) == Wanted(mod, relocs, sec)
    ensures EndSection(EncodeFrom(relocs, pos), sec) == sec
    decreases |relocs|
  {
    if relocs != [] {
      var e, rest := relocs[0], relocs[1..];
      var gap, next: nat := e.0.offset - pos, e.0.offset;
      var head, tail := Entries(gap, e), EncodeFrom(rest, next);
      EntriesRead(mod, gap, e, pos, sec);
      EncodeFromRead(mod, rest, next, sec);
      ReadRefsConcat(mod, head, tail, pos, sec);
      EndSectionConcat(head, tail, sec);
      WantedHead(mod, relocs, sec);
    }
  }

  lemma WantedHead(mod: nat, relocs: seq<ElfReloc>, sec: nat)
    requires relocs != []
    ensures var (rel, sym) := relocs[0];
            Wanted(mod, relocs, sec)
            == [Ref(sec, rel.offset, rel.kind, mod, sym.shndx, sym.value + rel.addend)] + Wanted(mod, relocs[1..], sec)
  {
  }

  /** Delta coding round-trips in one section, from wherever the decoder happens to stand. */
  lemma SectionRoundTrip(mod: nat, relocs: seq<ElfReloc>, secIdx: nat, pos: nat, sec: nat)
    requires SortedFrom(relocs, 0) && RealTypes(relocs)
    ensures ReadRefs(mod, EncodeSection(relocs, secIdx), pos, sec) == Wanted(mod, relocs, secIdx)
  {
    var t := EncodeSection(relocs, secIdx);
    assert t[0] == SectionChange(secIdx) && t[1..] == EncodeFrom(relocs, 0);
    EncodeFromRead(mod, relocs, 0, secIdx);
  }

  /** The relocations of one section against one module. */
  datatype Group = Group(secIdx: nat, relocs: seq<ElfReloc>)

  predicate SortedGroups(groups: seq<Group>) {
    forall i :: 0 <= i < |groups| ==> SortedFrom(groups[i].relocs, 0)
  }

  predicate RealGroups(groups: seq<Group>) {
    forall i :: 0 <= i < |groups| ==> RealTypes(groups[i].relocs)
  }

  /** The sections of a module's table one after the other. */
  function EncodeBody(groups: seq<Group>): seq<Reloc>
    requires SortedGroups(groups)
  {
    if groups == [] then []
    else
      assert SortedFrom(groups[0].relocs, 0);
      EncodeSection(groups[0].relocs, groups[0].secIdx) + EncodeBody(groups[1..])
  }

  /** The whole table of a module, closed by a STOP entry. */
  function EncodeGroups(groups: seq<Group>): seq<Reloc>
    requires SortedGroups(groups)
  {
    EncodeBody(groups) + [Stop]
  }

  lemma Regroup(a: seq<Reloc>, b: seq<Reloc>, c: seq<Reloc>)
    ensures a + (b + c) == (a + b) + c
  {
  }

  lemma {:induction false} EncodeBodySnoc(groups: seq<Group>, g: Group)
    requires SortedGroups(groups) && SortedFrom(g.relocs, 0)
    ensures SortedGroups(groups + [g])
    ensures EncodeBody(groups + [g]) == EncodeBody(groups) + EncodeSection(g.relocs, g.secIdx)
    decreases |groups|
  {
    if groups == [] {
      assert [] + [g] == [g] && [g][1..] == [];
    } else {
      assert (groups + [g])[0] == groups[0] && (groups + [g])[1..] == groups[1..] + [g];
      assert SortedFrom(groups[0].relocs, 0);
      EncodeBodySnoc(groups[1..], g);
      Regroup(EncodeSection(groups[0].relocs, groups[0].secIdx), EncodeBody(groups[1..]),
              EncodeSection(g.relocs, g.secIdx));
    }
  }

  function WantedGroups(mod: nat, groups: seq<Group>): seq<Ref> {
    if groups == [] then []
    else Wanted(mod, groups[0].relocs, groups[0].secIdx) + WantedGroups(mod, groups[1..])
  }

  lemma {:induction false} BodyRoundTrip(mod: nat, groups: seq<Group>, pos: nat, sec: nat)
    requires SortedGroups(groups) && RealGroups(groups)
    ensures ReadRefs(mod, EncodeBody(groups), pos, sec) == WantedGroups(mod, groups)
    decreases |groups|
  {
    if groups != [] {
      assert SortedFrom(groups[0].relocs, 0) && RealTypes(groups[0].relocs);
      var head, tail := EncodeSection(groups[0].relocs, groups[0].secIdx), EncodeBody(groups[1..]);
      SectionRoundTrip(mod, groups[0].relocs, groups[0].secIdx, pos, sec);
      ReadRefsConcat(mod, head, tail, pos, sec);
      BodyRoundTrip(mod, groups[1..], EndPos(head, pos), EndSection(head, sec));
    }
  }

  /** Decoding the encoded table gives back every relocation, for any number of sections and any gaps. */
  lemma TableRoundTrip(mod: nat, groups: seq<Group>)
    requires SortedGroups(groups) && RealGroups(groups)
    ensures ReadRefs(mod, EncodeGroups(groups), 0, 0) == WantedGroups(mod, groups)
  {
    var body := EncodeBody(groups);
    BodyRoundTrip(mod, groups, 0, 0);
    ReadRefsConcat(mod, body, [Stop], 0, 0);
    assert [Stop][1..] == [];
  }

  predicate GapsFit(table: seq<Reloc>) {
    forall i :: 0 <= i < |table| ==> table[i].offset <= MAX_GAP
  }

  /** Every gap the encoder emits fits the 16-bit field. */
  lemma {:induction false} EncodedGapsFit(relocs: seq<ElfReloc>, pos: nat)
    requires SortedFrom(relocs, pos)
    ensures GapsFit(EncodeFrom(relocs, pos))
    decreases |relocs|
  {
    if relocs != [] {
      EntriesFit(relocs[0].0.offset - pos, relocs[0]);
      EncodedGapsFit(relocs[1..], relocs[0].0.offset);
    }
  }

  lemma {:induction false} EntriesFit(gap: nat, e: ElfReloc)
    ensures GapsFit(Entries(gap, e))
  {
    if gap > MAX_GAP { EntriesFit(gap - MAX_GAP, e); }
  }

  lemma {:induction false} GroupGapsFit(groups: seq<Group>)
    requires SortedGroups(groups)
    ensures GapsFit(EncodeBody(groups))
  {
    if groups != [] {
      assert SortedFrom(groups[0].relocs, 0);
      EncodedGapsFit(groups[0].relocs, 0);
      GroupGapsFit(groups[1..]);
    }
  }
}
