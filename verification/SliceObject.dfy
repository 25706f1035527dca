/** The object that tools/slice_rel.py makes of a slice: its sections, the symbols of aliases, the relocations and the
    symbol table. */
module SliceObject {
  import opened Bytes
  import opened ElfCodec
  import opened ElfFile
  import opened RelNames
  import opened RelPipeline
  import opened RelTypes
  import opened Slices
  import opened Wrappers

  /** An alias as it is stored: the upper-case name of a place, and the name of the symbol there. */
  datatype Alias = Alias(key: string, name: string)

  const WRITE: int := 1
  const ALLOC: int := 2
  const EXEC: int := 4

  /** `SpecialSections.get`: type and flags by name. */
  function SpecialSection(name: string): (int, int) {
    if name in {"extab_", "extabindex_", ".ctors", ".dtors", ".rodata"} then (SHT_PROGBITS, ALLOC)
    else if name in {".data", ".sdata", ".sdata2"} then (SHT_PROGBITS, ALLOC + WRITE)
    else if name in {".bss", ".sbss", ".sbss2"} then (SHT_NOBITS, ALLOC + WRITE)
    else if name in {".init", ".text"} then (SHT_PROGBITS, ALLOC + EXEC)
    else if name == ".comment" then (SHT_PROGBITS, 0)
    else if name in {".shstrtab", ".strtab"} then (SHT_STRTAB, 0)
    else if name == ".symtab" then (SHT_SYMTAB, 0)
    else if ".rel." <= name then (9, 0)
    else if ".rela." <= name then (SHT_RELA, 0)
    else (SHT_NULL, 0)
  }

  /** The constructor of ElfSection. */
  function NewSection(name: string, body: Body): ElfSection {
    var (kind, flags) := SpecialSection(name);
    ElfSection(name, SectionHeader(-1, kind, flags, 0, -1, 0, 0, 0, 0, 0), body)
  }

  // ----- the sections of the slice -----

  /** `rel_file.sections[i]` of Python. */
  function SectionNumber(sections: seq<Section>, i: int): Option<Section> {
    if 0 <= i < |sections| then Some(sections[i])
    else if -|sections| <= i < 0 then Some(sections[|sections| + i])
    else None
  }

  predicate AllNonnegative(secs: seq<SliceSection>) {
    forall i :: 0 <= i < |secs| ==> Nonnegative(secs[i])
  }

  /** The object's section for a slice section; `None` is an index error. */
  function DataSection(sections: seq<Section>, sec: SliceSection): Option<ElfSection>
    requires Nonnegative(sec)
  {
    if sec.secName == ".bss" then
      var s := NewSection(sec.secName, Raw([]));
      Some(s.(header := s.header.(kind := SHT_NOBITS, size := sec.end - sec.start, align := sec.alignment)))
    else
      match SectionNumber(sections, sec.secIdx)
      case None => None
      case Some(rel) =>
        var s := NewSection(sec.secName, Raw(Clip(if rel.isBss then [] else rel.data, sec.start, sec.end)));
        Some(s.(header := s.header.(kind := SHT_PROGBITS, align := sec.alignment)))
  }

  /** `shndx_mapping`: the number of the last section in the object with that index. */
  function Mapping(secs: seq<SliceSection>): map<int, nat>
    decreases |secs|
  {
    if secs == [] then map[]
    else
      var n := |secs| - 1;
      Mapping(secs[..n])[secs[n].secIdx := n + 1]
  }

  /** The sections for the first `|objs|` slice sections. */
  predicate AreSections(sections: seq<Section>, secs: seq<SliceSection>, objs: seq<ElfSection>)
    requires AllNonnegative(secs)
  {
    |objs| <= |secs| && forall i :: 0 <= i < |objs| ==> DataSection(sections, secs[i]) == Some(objs[i])
  }

  method AddSections(sections: seq<Section>, secs: seq<SliceSection>) returns (objs: Option<seq<ElfSection>>,
                                                                             mapping: map<int, nat>)
    requires AllNonnegative(secs)
    ensures objs.Some? <==> forall i :: 0 <= i < |secs| ==> DataSection(sections, secs[i]).Some?
    ensures objs.Some? ==> |objs.value| == |secs| && AreSections(sections, secs, objs.value) && mapping == Mapping(secs)
  {
    var out: seq<ElfSection> := [];
    mapping := map[];
    for i := 0 to |secs|
      invariant |out| == i && AreSections(sections, secs, out) && mapping == Mapping(secs[..i])
    {
      var obj := DataSection(sections, secs[i]);
      if obj.None? {
        return None, map[];
      }
      out := out + [obj.value];
      assert secs[..i + 1][..i] == secs[..i];
      mapping := mapping[secs[i].secIdx := i + 1];
    }
    assert secs[..|secs|] == secs;
    objs := Some(out);
  }

  // ----- the symbols of aliases -----

  /** An alias of a place in the slice section becomes a symbol of the section that has its index. */
  function WithAlias(t: Symtab, index: nat, mapping: map<int, nat>, sec: SliceSection, alias: Alias, at: Target): Symtab
  {
    if at.section in mapping && at.mod == index && sec.Contains(at.section, at.addend)
    then Including(t, alias.key, Symbol(alias.name, at.addend - sec.start, 0, 1, 0, 0, mapping[at.section]))
    else t
  }

  predicate KeysParse(aliases: seq<Alias>) {
    forall i :: 0 <= i < |aliases| ==> Search(aliases[i].key) != None
  }

  function WithAliases(t: Symtab, index: nat, mapping: map<int, nat>, sec: SliceSection, aliases: seq<Alias>): Symtab
    requires KeysParse(aliases)
    decreases |aliases|
  {
    if aliases == [] then t
    else
      var n := |aliases| - 1;
      WithAlias(WithAliases(t, index, mapping, sec, aliases[..n]), index, mapping, sec, aliases[n],
                Search(aliases[n].key).value)
  }

  function AliasTable(index: nat, mapping: map<int, nat>, secs: seq<SliceSection>, aliases: seq<Alias>): Symtab
    requires KeysParse(aliases)
    decreases |secs|
  {
    if secs == [] then Symtab([], map[])
    else
      var n := |secs| - 1;
      WithAliases(AliasTable(index, mapping, secs[..n], aliases), index, mapping, secs[n], aliases)
  }

  /** The loop over slice sections and aliases; it fails where a name cannot be read. */
  method AddAliases(e: Extractor, index: nat, mapping: map<int, nat>, secs: seq<SliceSection>, aliases: seq<Alias>)
    returns (ok: bool)
    requires e.Table() == Symtab([], map[])
    modifies e
    ensures ok <==> secs == [] || KeysParse(aliases)
    ensures ok && secs != [] ==> e.Table() == AliasTable(index, mapping, secs, aliases)
    ensures ok && secs == [] ==> e.Table() == Symtab([], map[])
  {
    for i := 0 to |secs|
      invariant i > 0 ==> KeysParse(aliases)
      invariant i == 0 ==> e.Table() == Symtab([], map[])
      invariant KeysParse(aliases) ==> e.Table() == AliasTable(index, mapping, secs[..i], aliases)
    {
      assert secs[..i + 1][..i] == secs[..i];
      ok := AddAliasesOf(e, index, mapping, secs[i], aliases);
      if !ok {
        return;
      }
    }
    assert secs[..|secs|] == secs;
    ok := true;
  }

  /** The loop over the aliases, for one slice section. */
  method AddAliasesOf(e: Extractor, index: nat, mapping: map<int, nat>, sec: SliceSection, aliases: seq<Alias>)
    returns (ok: bool)
    modifies e
    ensures ok <==> KeysParse(aliases)
    ensures ok ==> e.Table() == WithAliases(old(e.Table()), index, mapping, sec, aliases)
  {
    ghost var t := e.Table();
    for j := 0 to |aliases|
      invariant KeysParse(aliases[..j])
      invariant e.Table() == WithAliases(t, index, mapping, sec, aliases[..j])
    {
      var m := Search(aliases[j].key);
      if m.None? {
        return false;
      }
      AliasesNext(t, index, mapping, sec, aliases, j);
      AddAlias(e, index, mapping, sec, aliases[j], m.value);
    }
    assert aliases[..|aliases|] == aliases;
    ok := true;
  }

  lemma AliasesNext(t: Symtab, index: nat, mapping: map<int, nat>, sec: SliceSection, aliases: seq<Alias>, j: nat)
    requires j < |aliases| && KeysParse(aliases[..j]) && Search(aliases[j].key).Some?
    ensures KeysParse(aliases[..j + 1])
    ensures WithAliases(t, index, mapping, sec, aliases[..j + 1])
         == WithAlias(WithAliases(t, index, mapping, sec, aliases[..j]), index, mapping, sec, aliases[j],
                      Search(aliases[j].key).value)
  {
    KeysNext(aliases[..j], aliases[j]);
    assert aliases[..j + 1] == aliases[..j] + [aliases[j]];
    AliasesLast(t, index, mapping, sec, aliases[..j + 1], aliases[..j]);
  }

  lemma KeysNext(aliases: seq<Alias>, alias: Alias)
    requires KeysParse(aliases) && Search(alias.key) != None
    ensures KeysParse(aliases + [alias])
  {
    forall i | 0 <= i < |aliases + [alias]| ensures Search((aliases + [alias])[i].key) != None {
      if i < |aliases| {
        assert (aliases + [alias])[i] == aliases[i];
      } else {
        assert (aliases + [alias])[i] == alias;
      }
    }
  }

  lemma AliasesLast(t: Symtab, index: nat, mapping: map<int, nat>, sec: SliceSection, aliases: seq<Alias>,
                    front: seq<Alias>)
    requires aliases != [] && front == aliases[..|aliases| - 1] && KeysParse(aliases) && KeysParse(front)
    ensures WithAliases(t, index, mapping, sec, aliases)
         == WithAlias(WithAliases(t, index, mapping, sec, front), index, mapping, sec, aliases[|aliases| - 1],
                      Search(aliases[|aliases| - 1].key).value)
  {
  }

  method AddAlias(e: Extractor, index: nat, mapping: map<int, nat>, sec: SliceSection, alias: Alias, at: Target)
    modifies e
    ensures e.Table() == WithAlias(old(e.Table()), index, mapping, sec, alias, at)
  {
    if at.section in mapping && at.mod == index && sec.Contains(at.section, at.addend) {
      var s := Symbol(alias.name, at.addend - sec.start, 0, 1, 0, 0, mapping[at.section]);
      var idx := e.AddSymbol(s);
      e.addedSyms := e.addedSyms[alias.key := idx];
    }
  }

  // ----- the object -----

  /** `get_section_index`: the first section of that name, or -1. */
  function IndexOfName(objs: seq<ElfSection>, name: string): (i: int)
    ensures -1 <= i < |objs|
    ensures i >= 0 ==> objs[i].name == name
    ensures forall j :: 0 <= j < (if i >= 0 then i else |objs|) ==> objs[j].name != name
  {
    if objs == [] then -1
    else if objs[0].name == name then 0
    else
      var i := IndexOfName(objs[1..], name);
      if i >= 0 then i + 1 else -1
  }

  lemma IndexInFront(a: seq<ElfSection>, b: seq<ElfSection>, name: string)
    requires IndexOfName(a, name) >= 0
    ensures IndexOfName(a + b, name) == IndexOfName(a, name)
  {
    assert forall j :: 0 <= j < |a| ==> (a + b)[j] == a[j];
    assert (a + b)[IndexOfName(a, name)].name == name;
  }

  /** The relocation section of a slice section, for an object that begins with `front`. */
  function RelaSection(front: seq<ElfSection>, name: string, relas: seq<Rela>, link: int): ElfSection {
    var s := NewSection(".rela" + name, Relas(relas));
    s.(header := s.header.(info := IndexOfName(front, name), link := link))
  }

  /** The relocation sections of the first `n` slice sections; one without relocations has none. */
  function RelaSections(front: seq<ElfSection>, secs: seq<SliceSection>, relas: seq<seq<Rela>>, n: nat, link: int)
    : seq<ElfSection>
    requires n <= |secs| == |relas|
  {
    if n == 0 then []
    else
      RelaSections(front, secs, relas, n - 1, link)
        + if relas[n - 1] == [] then [] else [RelaSection(front, secs[n - 1].secName, relas[n - 1], link)]
  }

  function EntriesOf(syms: seq<Symbol>): (r: seq<Entry>)
    ensures |r| == |syms| && forall i :: 0 <= i < |syms| ==> r[i] == Entry(-1, syms[i])
  {
    seq(|syms|, i requires 0 <= i < |syms| => Entry(-1, syms[i]))
  }

  /** The whole object: NULL section, slice sections, relocation sections that link to the symbol table, and the symbol
      table. */
  predicate IsObject(obj: seq<ElfSection>, front: seq<ElfSection>, secs: seq<SliceSection>, relas: seq<seq<Rela>>,
                     syms: seq<Symbol>)
    requires |relas| == |secs|
  {
    obj != [] && obj == front + RelaSections(front, secs, relas, |secs|, |obj| - 1)
                        + [NewSection(".symtab", Symbols(EntriesOf(syms)))]
  }

  /** The symbol table behind the aliases. */
  function FirstTable(index: nat, secs: seq<SliceSection>, aliases: seq<Alias>): Symtab
    requires secs == [] || KeysParse(aliases)
  {
    if secs == [] then Symtab([], map[]) else AliasTable(index, Mapping(secs), secs, aliases)
  }

  /** `extract_slice`; `None` stands for a section that the module does not have and for an alias that names no
      place. */
  method ExtractObject(sections: seq<Section>, index: nat, secs: seq<SliceSection>, aliases: seq<Alias>, refs: seq<Ref>)
    returns (obj: Option<seq<ElfSection>>, relas: seq<seq<Rela>>, table: Symtab)
    requires AllNonnegative(secs) && AllNameTargets(refs)
    ensures obj.Some? <==> && (forall i :: 0 <= i < |secs| ==> DataSection(sections, secs[i]).Some?)
                           && (secs == [] || KeysParse(aliases))
    ensures obj.Some? ==>
              && AllNameTargets(Extractions(refs, secs)) && |relas| == |secs|
              && table == ReferringAll(FirstTable(index, secs, aliases), Extractions(refs, secs))
              && (forall k :: 0 <= k < |secs| ==> AllRefer(table.added, relas[k], RefsIn(refs, secs[k]), secs[k].start))
    ensures obj.Some? ==>
              && |relas| == |secs| && |obj.value| > |secs| + 1
              && obj.value[0] == NullSection() && AreSections(sections, secs, obj.value[1..|secs| + 1])
              && IsObject(obj.value, obj.value[..|secs| + 1], secs, relas, table.syms)
  {
    relas, table := [], Symtab([], map[]);
    var objs, mapping := AddSections(sections, secs);
    if objs.None? {
      return None, relas, table;
    }
    var ok;
    ok, relas, table := ExtractTable(index, mapping, secs, aliases, refs);
    if !ok {
      return None, relas, table;
    }
    var front := [NullSection()] + objs.value;
    var whole := Assemble(front, secs, relas, table.syms);
    assert whole[1..|secs| + 1] == front[1..] == objs.value;
    obj := Some(whole);
  }

  /** The symbol table and the relocations of a slice. */
  method ExtractTable(index: nat, mapping: map<int, nat>, secs: seq<SliceSection>, aliases: seq<Alias>, refs: seq<Ref>)
    returns (ok: bool, relas: seq<seq<Rela>>, table: Symtab)
    requires AllNameTargets(refs) && mapping == Mapping(secs)
    ensures ok <==> secs == [] || KeysParse(aliases)
    ensures ok ==>
              && AllNameTargets(Extractions(refs, secs)) && |relas| == |secs|
              && table == ReferringAll(FirstTable(index, secs, aliases), Extractions(refs, secs))
              && (forall k :: 0 <= k < |secs| ==> AllRefer(table.added, relas[k], RefsIn(refs, secs[k]), secs[k].start))
  {
    var e := new Extractor();
    ok := AddAliases(e, index, mapping, secs, aliases);
    if ok {
      relas := e.ExtractSlice(refs, secs);
    } else {
      relas := [];
    }
    table := e.Table();
  }

  /** The relocation sections and the symbol table behind the sections of the slice. */
  method Assemble(front: seq<ElfSection>, secs: seq<SliceSection>, relas: seq<seq<Rela>>, syms: seq<Symbol>)
    returns (obj: seq<ElfSection>)
    requires |relas| == |secs| && |front| == |secs| + 1
    requires forall k :: 0 <= k < |secs| ==> front[k + 1].name == secs[k].secName
    ensures IsObject(obj, front, secs, relas, syms) && |obj| > |front| && obj[..|front|] == front
  {
    obj := AddRelaSections(front, secs, relas);
    var symtabIdx := |obj|;
    obj := LinkAll(obj, |front|, symtabIdx);
    LinkedRelas(front, secs, relas, |secs|, symtabIdx, obj);
    obj := obj + [NewSection(".symtab", Symbols(EntriesOf(syms)))];
  }

  method AddRelaSections(front: seq<ElfSection>, secs: seq<SliceSection>, relas: seq<seq<Rela>>)
    returns (obj: seq<ElfSection>)
    requires |relas| == |secs| && |front| == |secs| + 1
    requires forall k :: 0 <= k < |secs| ==> front[k + 1].name == secs[k].secName
    ensures obj == front + RelaSections(front, secs, relas, |secs|, 0)
  {
    obj := front;
    for k := 0 to |secs|
      invariant obj == front + RelaSections(front, secs, relas, k, 0)
    {
      if relas[k] != [] {
        var name := secs[k].secName;
        var sec := NewSection(".rela" + name, Relas(relas[k]));
        assert front[k + 1].name == name;
        IndexInFront(front, RelaSections(front, secs, relas, k, 0), name);
        obj := obj + [sec.(header := sec.header.(info := IndexOfName(obj, name)))];
      }
    }
  }

  /** The sections from `first` on get the number of the symbol table. */
  method LinkAll(objs: seq<ElfSection>, first: nat, link: int) returns (r: seq<ElfSection>)
    requires first <= |objs|
    ensures |r| == |objs| && r[..first] == objs[..first]
    ensures forall i :: first <= i < |objs| ==> r[i] == objs[i].(header := objs[i].header.(link := link))
  {
    r := objs;
    for i := first to |objs|
      invariant |r| == |objs| && r[..first] == objs[..first]
      invariant forall j :: first <= j < i ==> r[j] == objs[j].(header := objs[j].header.(link := link))
      invariant forall j :: i <= j < |objs| ==> r[j] == objs[j]
    {
      r := r[i := r[i].(header := r[i].header.(link := link))];
    }
  }

  lemma {:induction false} RelaLinks(front: seq<ElfSection>, secs: seq<SliceSection>, relas: seq<seq<Rela>>, n: nat,
                                     link: int)
    requires n <= |secs| == |relas|
    ensures var a, b := RelaSections(front, secs, relas, n, 0), RelaSections(front, secs, relas, n, link);
            |b| == |a| && forall i :: 0 <= i < |a| ==> b[i] == a[i].(header := a[i].header.(link := link))
  {
    if n > 0 { RelaLinks(front, secs, relas, n - 1, link); }
  }

  lemma LinkedRelas(front: seq<ElfSection>, secs: seq<SliceSection>, relas: seq<seq<Rela>>, n: nat, link: int,
                    obj: seq<ElfSection>)
    requires n <= |secs| == |relas|
    requires var plain := front + RelaSections(front, secs, relas, n, 0);
             && |obj| == |plain| && obj[..|front|] == front
             && forall i :: |front| <= i < |plain| ==> obj[i] == plain[i].(header := plain[i].header.(link := link))
    ensures obj == front + RelaSections(front, secs, relas, n, link)
  {
    RelaLinks(front, secs, relas, n, link);
  }

  // ----- what the relocations of the object point to -----

  /** The key names a place of the module in the slice section. */
  predicate Names(sec: SliceSection, index: nat, key: string) {
    match Search(key)
    case Some(at) => at.mod == index && sec.Contains(at.section, at.addend)
    case None => false
  }

  /** Slice section `j` is the last one with the index. */
  predicate IsLastWith(secs: seq<SliceSection>, secIdx: int, j: nat) {
    j < |secs| && secs[j].secIdx == secIdx && forall k :: j < k < |secs| ==> secs[k].secIdx != secIdx
  }

  lemma {:induction false} MappingMeaning(secs: seq<SliceSection>, secIdx: int)
    ensures secIdx in Mapping(secs) <==> exists i :: 0 <= i < |secs| && secs[i].secIdx == secIdx
    ensures secIdx in Mapping(secs) ==>
              Mapping(secs)[secIdx] >= 1 && IsLastWith(secs, secIdx, Mapping(secs)[secIdx] - 1)
    decreases |secs|
  {
    if secs != [] {
      var n := |secs| - 1;
      MappingMeaning(secs[..n], secIdx);
      if exists i :: 0 <= i < |secs| && secs[i].secIdx == secIdx {
        var i :| 0 <= i < |secs| && secs[i].secIdx == secIdx;
        if i < n { assert secs[..n][i].secIdx == secIdx; }
      }
    }
  }

  /** The symbol of an alias of place `at`, which slice section `i` contains: global, in the object's section for the
      last slice section with its index, counted from where section `i` starts. */
  predicate AliasSymbol(secs: seq<SliceSection>, s: Symbol, at: Target, i: nat, j: nat) {
    && i < |secs| && secs[i].Contains(at.section, at.addend) && IsLastWith(secs, at.section, j)
    && s == Symbol(s.name, at.addend - secs[i].start, 0, 1, 0, 0, j + 1)
  }

  ghost predicate IsAlias(secs: seq<SliceSection>, index: nat, s: Symbol, key: string) {
    exists at, i, j :: Search(key) == Some(at) && at.mod == index && AliasSymbol(secs, s, at, i, j)
  }

  /** A symbol known under `key`: that of an alias, or the undefined symbol of that name. */
  ghost predicate Known(secs: seq<SliceSection>, index: nat, s: Symbol, key: string) {
    s == Undefined(key) || IsAlias(secs, index, s, key)
  }

  /** Every number stands for such a symbol. */
  ghost predicate TableMeans(t: Symtab, secs: seq<SliceSection>, index: nat) {
    forall n :: n in t.added ==> 1 <= t.added[n] <= |t.syms| && Known(secs, index, t.syms[t.added[n] - 1], n)
  }

  lemma IncludingMeans(t: Symtab, secs: seq<SliceSection>, index: nat, key: string, s: Symbol)
    requires TableMeans(t, secs, index) && Known(secs, index, s, key)
    ensures TableMeans(Including(t, key, s), secs, index)
  {
    var u := Including(t, key, s);
    forall n | n in u.added ensures 1 <= u.added[n] <= |u.syms| && Known(secs, index, u.syms[u.added[n] - 1], n) {
      if n != key { assert n in t.added && u.syms[u.added[n] - 1] == t.syms[t.added[n] - 1]; }
    }
  }

  lemma AliasMeans(t: Symtab, secs: seq<SliceSection>, index: nat, i: nat, alias: Alias, at: Target)
    requires TableMeans(t, secs, index) && i < |secs| && Search(alias.key) == Some(at)
    ensures TableMeans(WithAlias(t, index, Mapping(secs), secs[i], alias, at), secs, index)
  {
    var s := AliasStep(t, secs, index, i, alias, at);
    if s.Some? { IncludingMeans(t, secs, index, alias.key, s.value); }
  }

  /** An alias changes nothing, or it puts in its symbol. */
  lemma AliasStep(t: Symtab, secs: seq<SliceSection>, index: nat, i: nat, alias: Alias, at: Target)
    returns (s: Option<Symbol>)
    requires i < |secs| && Search(alias.key) == Some(at)
    ensures WithAlias(t, index, Mapping(secs), secs[i], alias, at)
         == if s.None? then t else Including(t, alias.key, s.value)
    ensures s.Some? <==> Names(secs[i], index, alias.key)
    ensures s.Some? ==> Known(secs, index, s.value, alias.key) && s.value.shndx != 0
  {
    var mapping := Mapping(secs);
    MappingMeaning(secs, at.section);
    NamesAt(secs[i], index, alias.key, at);
    if at.mod == index && secs[i].Contains(at.section, at.addend) {
      var sym := Symbol(alias.name, at.addend - secs[i].start, 0, 1, 0, 0, mapping[at.section]);
      PlacedIsKnown(secs, index, i, alias, at, sym);
      s := Some(sym);
    } else {
      s := None;
    }
  }

  lemma NamesAt(sec: SliceSection, index: nat, key: string, at: Target)
    requires Search(key) == Some(at)
    ensures Names(sec, index, key) <==> at.mod == index && sec.Contains(at.section, at.addend)
  {
  }

  lemma PlacedIsKnown(secs: seq<SliceSection>, index: nat, i: nat, alias: Alias, at: Target, s: Symbol)
    requires i < |secs| && Search(alias.key) == Some(at) && at.section in Mapping(secs) && at.mod == index
    requires secs[i].Contains(at.section, at.addend)
    requires s == Symbol(alias.name, at.addend - secs[i].start, 0, 1, 0, 0, Mapping(secs)[at.section])
    ensures Known(secs, index, s, alias.key)
  {
    MappingMeaning(secs, at.section);
    assert AliasSymbol(secs, s, at, i, Mapping(secs)[at.section] - 1);
  }

  lemma {:induction false} AliasesMean(t: Symtab, secs: seq<SliceSection>, index: nat, i: nat, aliases: seq<Alias>)
    requires TableMeans(t, secs, index) && i < |secs| && KeysParse(aliases)
    ensures TableMeans(WithAliases(t, index, Mapping(secs), secs[i], aliases), secs, index)
    decreases |aliases|
  {
    if aliases != [] {
      var n := |aliases| - 1;
      AliasesMean(t, secs, index, i, aliases[..n]);
      AliasMeans(WithAliases(t, index, Mapping(secs), secs[i], aliases[..n]), secs, index, i, aliases[n],
                 Search(aliases[n].key).value);
    }
  }

  lemma {:induction false} AliasTableMeans(secs: seq<SliceSection>, index: nat, aliases: seq<Alias>, n: nat)
    requires n <= |secs| && KeysParse(aliases)
    ensures TableMeans(AliasTable(index, Mapping(secs), secs[..n], aliases), secs, index)
  {
    if n > 0 {
      AliasTableMeans(secs, index, aliases, n - 1);
      assert secs[..n][..n - 1] == secs[..n - 1];
      AliasesMean(AliasTable(index, Mapping(secs), secs[..n - 1], aliases), secs, index, n - 1, aliases);
    }
  }

  lemma {:induction false} ReferringMeans(t: Symtab, secs: seq<SliceSection>, index: nat, refs: seq<Ref>)
    requires TableMeans(t, secs, index) && AllNameTargets(refs)
    ensures TableMeans(ReferringAll(t, refs), secs, index)
    decreases |refs|
  {
    if refs != [] {
      var n := |refs| - 1;
      ReferringMeans(t, secs, index, refs[..n]);
      ReferenceMeans(ReferringAll(t, refs[..n]), secs, index, RefName(refs[n]));
    }
  }

  lemma ReferenceMeans(t: Symtab, secs: seq<SliceSection>, index: nat, name: string)
    requires TableMeans(t, secs, index)
    ensures TableMeans(Referring(t, name), secs, index)
  {
    if name !in t.added { IncludingMeans(t, secs, index, name, Undefined(name)); }
  }

  /** What a relocation of the object is against: an undefined symbol that spells the target, or a symbol of the object
      at the target. */
  ghost predicate Denotes(secs: seq<SliceSection>, index: nat, s: Symbol, r: Ref)
    requires NamesTarget(r)
  {
    || s == Undefined(RefName(r))
    || (r.mod == index && exists i, j :: AliasSymbol(secs, s, Target(r.mod, r.target, r.addend), i, j))
  }

  /** Aliases lead no relocation astray: each one is against the undefined name of its target, or against a symbol that
      was put there for the very place that it names. */
  lemma EachDenotes(secs: seq<SliceSection>, index: nat, aliases: seq<Alias>, refs: seq<Ref>, table: Symtab,
                    relas: seq<Rela>, k: nat, i: nat)
    requires secs == [] || KeysParse(aliases)
    requires AllNameTargets(Extractions(refs, secs))
    requires table == ReferringAll(FirstTable(index, secs, aliases), Extractions(refs, secs))
    requires k < |secs| && AllRefer(table.added, relas, RefsIn(refs, secs[k]), secs[k].start)
    requires i < |relas|
    ensures 1 <= relas[i].sym <= |table.syms| && NamesTarget(RefsIn(refs, secs[k])[i])
    ensures Denotes(secs, index, table.syms[relas[i].sym - 1], RefsIn(refs, secs[k])[i])
  {
    SliceTableMeans(secs, index, aliases, refs, table);
    AllDenote(secs, index, table, relas, RefsIn(refs, secs[k]), secs[k].start, i);
  }

  lemma AllDenote(secs: seq<SliceSection>, index: nat, table: Symtab, relas: seq<Rela>, refs: seq<Ref>, start: int,
                  i: nat)
    requires TableMeans(table, secs, index) && AllRefer(table.added, relas, refs, start) && i < |relas|
    ensures 1 <= relas[i].sym <= |table.syms| && NamesTarget(refs[i])
    ensures Denotes(secs, index, table.syms[relas[i].sym - 1], refs[i])
  {
    KnownDenotes(secs, index, table, relas[i], refs[i], start);
  }

  lemma SliceTableMeans(secs: seq<SliceSection>, index: nat, aliases: seq<Alias>, refs: seq<Ref>, table: Symtab)
    requires (secs == [] || KeysParse(aliases)) && AllNameTargets(Extractions(refs, secs))
    requires table == ReferringAll(FirstTable(index, secs, aliases), Extractions(refs, secs))
    ensures TableMeans(table, secs, index)
  {
    assert secs[..|secs|] == secs;
    if secs != [] { AliasTableMeans(secs, index, aliases, |secs|); }
    ReferringMeans(FirstTable(index, secs, aliases), secs, index, Extractions(refs, secs));
  }

  lemma KnownDenotes(secs: seq<SliceSection>, index: nat, table: Symtab, rela: Rela, r: Ref, start: int)
    requires TableMeans(table, secs, index) && Refers(table.added, rela, r, start)
    ensures 1 <= rela.sym <= |table.syms| && Denotes(secs, index, table.syms[rela.sym - 1], r)
  {
    assert Known(secs, index, table.syms[rela.sym - 1], RefName(r));
    NameRoundTrip(Target(r.mod, r.target, r.addend));
  }

  /** The symbol stands at the place that is named exactly when the last section with that index starts where the
      containing one does. */
  lemma AliasPlace(secs: seq<SliceSection>, s: Symbol, at: Target, i: nat, j: nat)
    requires AliasSymbol(secs, s, at, i, j)
    ensures secs[s.shndx - 1].secIdx == at.section
    ensures secs[s.shndx - 1].start + s.value == at.addend <==> secs[j].start == secs[i].start
    ensures (forall k :: 0 <= k < |secs| && k != i ==> secs[k].secIdx != at.section) ==> i == j
  {
  }

  // ----- which relocations are against aliases -----

  /** One of the first `n` slice sections contains the place of the module that the key names. */
  predicate NamesIn(secs: seq<SliceSection>, n: nat, index: nat, key: string)
    requires n <= |secs|
  {
    n > 0 && (Names(secs[n - 1], index, key) || NamesIn(secs, n - 1, index, key))
  }

  /** There is an alias under the key, of a place of the module in the slice. */
  predicate InSlice(secs: seq<SliceSection>, index: nat, aliases: seq<Alias>, key: string) {
    HasKey(aliases, |aliases|, key) && NamesIn(secs, |secs|, index, key)
  }

  lemma AliasAdds(t: Symtab, secs: seq<SliceSection>, index: nat, i: nat, alias: Alias, key: string)
    requires i < |secs| && Search(alias.key).Some?
    ensures key in WithAlias(t, index, Mapping(secs), secs[i], alias, Search(alias.key).value).added
       <==> key in t.added || (alias.key == key && Names(secs[i], index, key))
  {
    var s := AliasStep(t, secs, index, i, alias, Search(alias.key).value);
  }

  lemma {:induction false} AliasesAdd(t: Symtab, secs: seq<SliceSection>, index: nat, i: nat, aliases: seq<Alias>,
                                      n: nat, key: string)
    requires i < |secs| && n <= |aliases| && KeysParse(aliases) && KeysParse(aliases[..n])
    ensures key in WithAliases(t, index, Mapping(secs), secs[i], aliases[..n]).added
       <==> key in t.added || (Names(secs[i], index, key) && HasKey(aliases, n, key))
  {
    if n > 0 {
      AliasesAdd(t, secs, index, i, aliases, n - 1, key);
      AliasesNext(t, index, Mapping(secs), secs[i], aliases, n - 1);
      AliasAdds(WithAliases(t, index, Mapping(secs), secs[i], aliases[..n - 1]), secs, index, i, aliases[n - 1], key);
    } else {
      assert aliases[..0] == [];
    }
  }

  /** One of the first `n` aliases has the key. */
  predicate HasKey(aliases: seq<Alias>, n: nat, key: string)
    requires n <= |aliases|
  {
    n > 0 && (aliases[n - 1].key == key || HasKey(aliases, n - 1, key))
  }

  lemma {:induction false} TableAdds(secs: seq<SliceSection>, index: nat, aliases: seq<Alias>, n: nat, key: string)
    requires n <= |secs| && KeysParse(aliases)
    ensures key in AliasTable(index, Mapping(secs), secs[..n], aliases).added
       <==> HasKey(aliases, |aliases|, key) && NamesIn(secs, n, index, key)
  {
    if n > 0 {
      TableAdds(secs, index, aliases, n - 1, key);
      assert secs[..n][..n - 1] == secs[..n - 1] && aliases[..|aliases|] == aliases;
      AliasesAdd(AliasTable(index, Mapping(secs), secs[..n - 1], aliases), secs, index, n - 1, aliases, |aliases|, key);
    } else {
      assert secs[..0] == [];
    }
  }

  /** The names that are known before the relocations are the aliases of places in the slice. */
  lemma AliasesKnown(secs: seq<SliceSection>, index: nat, aliases: seq<Alias>, key: string)
    requires secs == [] || KeysParse(aliases)
    ensures key in FirstTable(index, secs, aliases).added <==> InSlice(secs, index, aliases, key)
  {
    if secs != [] {
      assert secs[..|secs|] == secs;
      TableAdds(secs, index, aliases, |secs|, key);
    }
  }

  /** Aliases put in only symbols that are defined. */
  lemma {:induction false} AliasesDefine(t: Symtab, secs: seq<SliceSection>, index: nat, i: nat, aliases: seq<Alias>)
    requires i < |secs| && KeysParse(aliases) && forall s :: s in t.syms ==> s.shndx != 0
    ensures forall s :: s in WithAliases(t, index, Mapping(secs), secs[i], aliases).syms ==> s.shndx != 0
    decreases |aliases|
  {
    if aliases != [] {
      var n := |aliases| - 1;
      AliasesDefine(t, secs, index, i, aliases[..n]);
      var _ := AliasStep(WithAliases(t, index, Mapping(secs), secs[i], aliases[..n]), secs, index, i, aliases[n],
                         Search(aliases[n].key).value);
    }
  }

  lemma {:induction false} TableDefines(secs: seq<SliceSection>, index: nat, aliases: seq<Alias>, n: nat)
    requires n <= |secs| && KeysParse(aliases)
    ensures forall s :: s in AliasTable(index, Mapping(secs), secs[..n], aliases).syms ==> s.shndx != 0
  {
    if n > 0 {
      TableDefines(secs, index, aliases, n - 1);
      assert secs[..n][..n - 1] == secs[..n - 1];
      AliasesDefine(AliasTable(index, Mapping(secs), secs[..n - 1], aliases), secs, index, n - 1, aliases);
    } else {
      assert secs[..0] == [];
    }
  }

  /** A name that is new gets an undefined symbol. */
  lemma {:induction false} NewIsUndefined(t: Symtab, refs: seq<Ref>, name: string)
    requires AllNameTargets(refs) && name !in t.added
    ensures IsUndefined(ReferringAll(t, refs), name)
    decreases |refs|
  {
    if refs != [] {
      var front := refs[..|refs| - 1];
      NewIsUndefined(t, front, name);
      ReferringLast(t, refs, front);
      StaysUndefined(ReferringAll(t, front), RefName(refs[|refs| - 1]), name);
    }
  }

  /** A name that is known has an undefined symbol. */
  predicate IsUndefined(t: Symtab, name: string) {
    name in t.added ==> 1 <= t.added[name] <= |t.syms| && t.syms[t.added[name] - 1] == Undefined(name)
  }

  lemma StaysUndefined(t: Symtab, other: string, name: string)
    requires IsUndefined(t, name)
    ensures IsUndefined(Referring(t, other), name)
  {
  }

  /** A relocation is against the symbol of an alias exactly when the name of its target is the key of one in the
      slice. */
  lemma AliasUsed(secs: seq<SliceSection>, index: nat, aliases: seq<Alias>, refs: seq<Ref>, table: Symtab, rela: Rela,
                  r: Ref, start: int)
    requires (secs == [] || KeysParse(aliases)) && AllNameTargets(Extractions(refs, secs))
    requires table == ReferringAll(FirstTable(index, secs, aliases), Extractions(refs, secs))
    requires Refers(table.added, rela, r, start)
    ensures 1 <= rela.sym <= |table.syms|
    ensures table.syms[rela.sym - 1].shndx != 0 <==> InSlice(secs, index, aliases, RefName(r))
  {
    AliasesKnown(secs, index, aliases, RefName(r));
    if RefName(r) in FirstTable(index, secs, aliases).added {
      FirstNumber(secs, index, aliases, RefName(r));
      NumberStays(FirstTable(index, secs, aliases), Extractions(refs, secs), RefName(r));
    } else {
      NewIsUndefined(FirstTable(index, secs, aliases), Extractions(refs, secs), RefName(r));
    }
  }

  lemma NumberStays(t: Symtab, refs: seq<Ref>, name: string)
    requires AllNameTargets(refs) && name in t.added && 1 <= t.added[name] <= |t.syms|
    ensures var u := ReferringAll(t, refs);
            && name in u.added && 1 <= u.added[name] <= |u.syms|
            && u.syms[u.added[name] - 1] == t.syms[t.added[name] - 1]
  {
    AddedStay(t, refs);
    assert ReferringAll(t, refs).syms[..|t.syms|] == t.syms;
  }

  lemma FirstNumber(secs: seq<SliceSection>, index: nat, aliases: seq<Alias>, key: string)
    requires secs == [] || KeysParse(aliases)
    requires key in FirstTable(index, secs, aliases).added
    ensures var first := FirstTable(index, secs, aliases);
            1 <= first.added[key] <= |first.syms| && first.syms[first.added[key] - 1].shndx != 0
  {
    assert secs[..|secs|] == secs;
    AliasTableMeans(secs, index, aliases, |secs|);
    TableDefines(secs, index, aliases, |secs|);
  }

  /** Keys are in upper case, so that only places are found whose numbers are printed without letters. */
  lemma AliasNeedsDigits(secs: seq<SliceSection>, index: nat, aliases: seq<Alias>, r: Ref)
    requires NamesTarget(r) && InSlice(secs, index, aliases, RefName(r))
    requires forall i :: 0 <= i < |aliases| ==> aliases[i].key == Upper(aliases[i].key)
    ensures DecimalDigits(r.mod) && DecimalDigits(r.target) && DecimalDigits(r.addend)
  {
    KeyOf(aliases, |aliases|, RefName(r));
    AliasFoundIffNoLetters(Target(r.mod, r.target, r.addend));
  }

  lemma {:induction false} KeyOf(aliases: seq<Alias>, n: nat, key: string)
    requires n <= |aliases| && HasKey(aliases, n, key)
    ensures exists i :: 0 <= i < n && aliases[i].key == key
  {
    if aliases[n - 1].key != key { KeyOf(aliases, n - 1, key); }
  }

  // ----- the sections, field by field -----

  /** A slice section in the object: the bytes of the module's section between its ends, or zeros for .bss. */
  lemma DataSectionFields(sections: seq<Section>, sec: SliceSection, obj: ElfSection)
    requires Nonnegative(sec) && DataSection(sections, sec) == Some(obj)
    ensures obj.name == sec.secName && obj.header.align == sec.alignment
    ensures sec.secName == ".bss" ==>
              obj.header.kind == 8 && obj.header.size == sec.end - sec.start && obj.body == Raw([])
    ensures sec.secName != ".bss" && 0 <= sec.secIdx < |sections| && !sections[sec.secIdx].isBss ==>
              && obj.header.kind == 1
              && (sec.start <= sec.end <= |sections[sec.secIdx].data| ==>
                    obj.body == Raw(sections[sec.secIdx].data[sec.start..sec.end]))
  {
  }

  lemma SpecialExamples()
    ensures SpecialSection(".text") == (1, 6) && SpecialSection(".data") == (1, 3)
    ensures SpecialSection(".rodata") == (1, 2) && SpecialSection(".bss") == (8, 3)
    ensures SpecialSection(".symtab") == (2, 0) && SpecialSection(".strtab") == (3, 0)
    ensures SpecialSection(".rela" + ".text") == (4, 0)
  {
    assert ".rela" + ".text" == ".rela.text";
    assert ".rela.text"[..6] == ".rela.";
    assert ".rela.text"[4] == 'a' && ".rel."[4] == '.';
  }

  /** How many of the first `n` slice sections have relocations. */
  function Used(relas: seq<seq<Rela>>, n: nat): nat
    requires n <= |relas|
  {
    if n == 0 then 0 else Used(relas, n - 1) + if relas[n - 1] == [] then 0 else 1
  }

  lemma {:induction false} RelaNumber(front: seq<ElfSection>, secs: seq<SliceSection>, relas: seq<seq<Rela>>, n: nat,
                                      link: int, k: nat)
    requires n <= |secs| == |relas|
    ensures |RelaSections(front, secs, relas, n, link)| == Used(relas, n)
    ensures k < n && relas[k] != [] ==>
              && Used(relas, k) < Used(relas, n)
              && RelaSections(front, secs, relas, n, link)[Used(relas, k)]
                 == RelaSection(front, secs[k].secName, relas[k], link)
  {
    if n > 0 { RelaNumber(front, secs, relas, n - 1, link, k); }
  }

  /** The relocations of a slice section stand in the order of the sections that have any; their header names the
      section that they are for and the symbol table, which comes last. */
  lemma RelaPlaces(obj: seq<ElfSection>, front: seq<ElfSection>, secs: seq<SliceSection>, relas: seq<seq<Rela>>,
                   syms: seq<Symbol>, k: nat)
    requires |relas| == |secs| && IsObject(obj, front, secs, relas, syms)
    ensures |obj| == |front| + Used(relas, |relas|) + 1
    ensures obj[|obj| - 1].name == ".symtab" && obj[|obj| - 1].header.kind == 2
    ensures obj[|obj| - 1].body == Symbols(EntriesOf(syms))
    ensures k < |secs| && relas[k] != [] ==> Used(relas, k) < Used(relas, |relas|)
    ensures k < |secs| && relas[k] != [] ==>
              var sec := obj[|front| + Used(relas, k)];
              && sec.name == ".rela" + secs[k].secName
              && sec.body == Relas(relas[k]) && sec.header.link == |obj| - 1
              && sec.header.info == IndexOfName(front, secs[k].secName)
  {
    RelaNumber(front, secs, relas, |secs|, |obj| - 1, k);
  }
}
