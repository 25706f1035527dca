/** Slicing a REL module and rebuilding it keeps its relocations: tools/slice_rel.py followed by
    tools/build_rel.py, with linking taken as the identity on one object that holds the whole module. */
module RelRebuild {
  import opened RelLayout
  import opened RelNames
  import opened RelPipeline
  import opened RelTable
  import opened RelTypes
  import opened Slices
  import opened Wrappers

  function InSection(refs: seq<Ref>, sec: nat): seq<Ref> {
    if refs == [] then []
    else (if refs[0].section == sec then [refs[0]] else []) + InSection(refs[1..], sec)
  }

  function ToModule(refs: seq<Ref>, mod: nat): seq<Ref> {
    if refs == [] then []
    else (if refs[0].mod == mod then [refs[0]] else []) + ToModule(refs[1..], mod)
  }

  /** The references section by section, each section in its old order. */
  function BySection(refs: seq<Ref>, n: nat): seq<Ref> {
    if n == 0 then [] else BySection(refs, n - 1) + InSection(refs, n - 1)
  }

  predicate PosAscend(refs: seq<Ref>) {
    forall i, j :: 0 <= i < j < |refs| ==> refs[i].pos <= refs[j].pos
  }

  // ----- relocations that stand for references are encoded and decoded back -----

  lemma NotRenamed(name: string, own: nat)
    requires name != "" && name[0] == 'R'
    ensures Renamed(name, own) == name
  {
    assert "__destroy_global_chain"[0] == '_';
  }

  lemma ResolvedByName(own: nat, symtab: seq<Symbol>, modules: seq<seq<Symbol>>, rela: Rela, name: string, t: Target)
    requires 1 <= rela.sym <= |symtab| && symtab[rela.sym - 1].shndx == SHN_UNDEF
    requires name == Renamed(symtab[rela.sym - 1].name, own) && Search(name) == Some(t)
    ensures Resolve(own, symtab, modules, rela) == Some((t.mod, Symbol("", t.addend, 0, 0, 0, 0, t.section)))
  {
    assert ResolveName(own, modules, name) == Some((t.mod, Symbol("", t.addend, 0, 0, 0, 0, t.section)));
  }

  /** A relocation that stands for a reference resolves to its target. */
  lemma StandsResolves(symtab: seq<Symbol>, rela: Rela, r: Ref, own: nat, modules: seq<seq<Symbol>>)
    requires Stands(symtab, rela, r, 0)
    ensures Resolve(own, symtab, modules, rela) == Some((r.mod, Symbol("", r.addend, 0, 0, 0, 0, r.target)))
  {
    var t := Target(r.mod, r.target, r.addend);
    var name := Name(t);
    assert Search(name) == Some(t) by { NameRoundTrip(t); }
    assert name != "" && name[0] == 'R';
    NotRenamed(name, own);
    assert symtab[rela.sym - 1] == Undefined(name);
    ResolvedByName(own, symtab, modules, rela, name, t);
  }

  lemma {:induction false} StandingValid(symtab: seq<Symbol>, relas: seq<Rela>, refs: seq<Ref>)
    requires AllStand(symtab, relas, refs, 0)
    ensures ValidIndices(relas, symtab)
  {
    assert forall i :: 0 <= i < |refs| ==> Stands(symtab, relas[i], refs[i], 0);
  }

  lemma StandingTail(symtab: seq<Symbol>, relas: seq<Rela>, refs: seq<Ref>)
    requires AllStand(symtab, relas, refs, 0) && refs != []
    ensures Stands(symtab, relas[0], refs[0], 0) && AllStand(symtab, relas[1..], refs[1..], 0)
  {
  }

  function TargetSymbol(r: Ref): Symbol
    requires NamesTarget(r)
  {
    Symbol("", r.addend, 0, 0, 0, 0, r.target)
  }

  /** Relocations that stand for references are the wanted relocations of these references. */
  lemma {:induction false} SelectedAreWanted(symtab: seq<Symbol>, relas: seq<Rela>, res: seq<Resolution>,
                                             refs: seq<Ref>, mod: nat, sec: nat)
    requires AllStand(symtab, relas, refs, 0) && |res| == |relas|
    requires forall i :: 0 <= i < |refs| ==> refs[i].section == sec
    requires forall i :: 0 <= i < |refs| ==>
               NamesTarget(refs[i]) && res[i] == Some((refs[i].mod, TargetSymbol(refs[i])))
    ensures Wanted(mod, Select(relas, res, mod), sec) == ToModule(refs, mod)
    decreases |refs|
  {
    if refs != [] {
      StandingTail(symtab, relas, refs);
      SelectedAreWanted(symtab, relas[1..], res[1..], refs[1..], mod, sec);
      var here := if refs[0].mod == mod then [(relas[0], TargetSymbol(refs[0]))] else [];
      WantedConcat(mod, here, Select(relas[1..], res[1..], mod), sec);
      FirstWanted(symtab, relas[0], refs[0], mod, sec);
    }
  }

  lemma FirstWanted(symtab: seq<Symbol>, rela: Rela, r: Ref, mod: nat, sec: nat)
    requires Stands(symtab, rela, r, 0) && r.section == sec
    ensures Wanted(r.mod, [(rela, TargetSymbol(r))], sec) == [r] && Wanted(mod, [], sec) == []
  {
  }

  lemma StandingAreWanted(symtab: seq<Symbol>, relas: seq<Rela>, refs: seq<Ref>, own: nat, modules: seq<seq<Symbol>>,
                          mod: nat, sec: nat)
    requires AllStand(symtab, relas, refs, 0) && ValidIndices(relas, symtab)
    requires forall i :: 0 <= i < |refs| ==> refs[i].section == sec
    ensures Wanted(mod, ResolvedTo(own, symtab, modules, relas, mod), sec) == ToModule(refs, mod)
  {
    var res := Resolutions(own, symtab, modules, relas);
    forall i | 0 <= i < |refs| ensures NamesTarget(refs[i]) && res[i] == Some((refs[i].mod, TargetSymbol(refs[i]))) {
      assert Stands(symtab, relas[i], refs[i], 0);
      StandsResolves(symtab, relas[i], refs[i], own, modules);
    }
    SelectedAreWanted(symtab, relas, res, refs, mod, sec);
  }

  lemma WantedConcat(mod: nat, a: seq<ElfReloc>, b: seq<ElfReloc>, sec: nat)
    ensures Wanted(mod, a + b, sec) == Wanted(mod, a, sec) + Wanted(mod, b, sec)
  {
  }

  /** Relocations whose references ascend are accepted by the encoder. */
  lemma {:induction false} AscendingIsSorted(mod: nat, relocs: seq<ElfReloc>, sec: nat, pos: nat)
    requires PosAscend(Wanted(mod, relocs, sec)) && (relocs != [] ==> pos <= relocs[0].0.offset)
    ensures SortedFrom(relocs, pos)
    decreases |relocs|
  {
    if relocs != [] {
      var w, v := Wanted(mod, relocs, sec), Wanted(mod, relocs[1..], sec);
      assert forall i :: 0 <= i < |v| ==> v[i] == w[i + 1];
      if |relocs| > 1 { assert w[0].pos <= w[1].pos; }
      AscendingIsSorted(mod, relocs[1..], sec, relocs[0].0.offset);
    }
  }

  /** And it accepts no others. */
  lemma {:induction false} SortedIsAscending(mod: nat, relocs: seq<ElfReloc>, sec: nat, pos: nat)
    requires SortedFrom(relocs, pos)
    ensures PosAscend(Wanted(mod, relocs, sec))
    ensures forall r :: r in Wanted(mod, relocs, sec) ==> pos <= r.pos
    decreases |relocs|
  {
    if relocs != [] {
      var w, v := Wanted(mod, relocs, sec), Wanted(mod, relocs[1..], sec);
      SortedIsAscending(mod, relocs[1..], sec, relocs[0].0.offset);
      assert forall i :: 0 <= i < |v| ==> v[i] == w[i + 1];
      forall i, j | 0 <= i < j < |w| ensures w[i].pos <= w[j].pos {
        assert w[j] == v[j - 1] && v[j - 1] in v;
        if i > 0 { assert w[i] == v[i - 1]; }
      }
      forall r | r in w ensures pos <= r.pos {
        var i :| 0 <= i < |w| && w[i] == r;
        if i > 0 { assert w[i] == v[i - 1] && v[i - 1] in v; }
      }
    }
  }

  // ----- the whole module -----

  /** The slice that holds the whole module: section `k` from 0 to its length. */
  function WholeModule(lens: seq<nat>): (secs: seq<SliceSection>)
    ensures |secs| == |lens|
    ensures forall k :: 0 <= k < |lens| ==> secs[k].secIdx == k && secs[k].start == 0 && secs[k].end == lens[k]
  {
    seq(|lens|, k requires 0 <= k < |lens| => SliceSection("", k, 0, lens[k], 0))
  }

  /** Every reference names its target and lies inside an existing section. */
  predicate Sliceable(refs: seq<Ref>, lens: seq<nat>) {
    forall i :: 0 <= i < |refs| ==>
      NamesTarget(refs[i]) && refs[i].section < |lens| && refs[i].pos < lens[refs[i].section]
  }

  /** The references of one section to one module ascend. */
  predicate PlacesAscend(refs: seq<Ref>) {
    forall i, j :: 0 <= i < j < |refs| && refs[i].section == refs[j].section && refs[i].mod == refs[j].mod ==>
      refs[i].pos <= refs[j].pos
  }

  lemma {:induction false} WholeSectionRefs(refs: seq<Ref>, lens: seq<nat>, k: nat)
    requires Sliceable(refs, lens) && k < |lens|
    ensures RefsIn(refs, WholeModule(lens)[k]) == InSection(refs, k)
    decreases |refs|
  {
    if refs != [] {
      WholeSectionRefs(refs[1..], lens, k);
    }
  }

  /** The references of section `k` to module `mod`. */
  function Selected(refs: seq<Ref>, mod: nat, k: nat): seq<Ref> {
    ToModule(InSection(refs, k), mod)
  }

  lemma SelectedCons(refs: seq<Ref>, mod: nat, k: nat)
    requires refs != []
    ensures Selected(refs, mod, k)
         == (if refs[0].section == k && refs[0].mod == mod then [refs[0]] else []) + Selected(refs[1..], mod, k)
  {
    var rest := InSection(refs[1..], k);
    assert if refs[0].section == k then InSection(refs, k)[1..] == rest else InSection(refs, k) == rest;
  }

  lemma {:induction false} SelectedMembers(refs: seq<Ref>, mod: nat, k: nat)
    ensures forall r :: r in Selected(refs, mod, k) <==> r in refs && r.section == k && r.mod == mod
  {
    if refs != [] {
      SelectedCons(refs, mod, k);
      SelectedMembers(refs[1..], mod, k);
      assert refs == [refs[0]] + refs[1..];
    }
  }

  lemma {:induction false} FilterAscends(refs: seq<Ref>, mod: nat, k: nat)
    requires PlacesAscend(refs)
    ensures PosAscend(Selected(refs, mod, k))
    decreases |refs|
  {
    if refs != [] {
      FilterAscends(refs[1..], mod, k);
      SelectedCons(refs, mod, k);
      var tail := Selected(refs[1..], mod, k);
      SelectedMembers(refs[1..], mod, k);
      forall i | 0 <= i < |tail| && refs[0].section == k && refs[0].mod == mod ensures refs[0].pos <= tail[i].pos {
        assert tail[i] in tail && tail[i] in refs[1..];
        var j :| 0 <= j < |refs[1..]| && refs[1..][j] == tail[i];
        assert refs[j + 1] == tail[i];
      }
    }
  }

  /** Conversely a pair that descends shows up in what is selected for its section and module. */
  lemma {:induction false} FilterShows(refs: seq<Ref>, i: nat, j: nat)
    requires i < j < |refs| && refs[i].section == refs[j].section && refs[i].mod == refs[j].mod
    requires PosAscend(Selected(refs, refs[i].mod, refs[i].section))
    ensures refs[i].pos <= refs[j].pos
    decreases |refs|
  {
    if i == 0 {
      ShowFirst(refs, j);
    } else {
      SelectedRest(refs, refs[i].mod, refs[i].section);
      FilterShows(refs[1..], i - 1, j - 1);
    }
  }

  lemma ShowFirst(refs: seq<Ref>, j: nat)
    requires 0 < j < |refs| && refs[0].section == refs[j].section && refs[0].mod == refs[j].mod
    requires PosAscend(Selected(refs, refs[0].mod, refs[0].section))
    ensures refs[0].pos <= refs[j].pos
  {
    SelectedCons(refs, refs[0].mod, refs[0].section);
    SelectedHas(refs[1..], j - 1);
    FirstBelow(refs[0], Selected(refs[1..], refs[0].mod, refs[0].section), refs[j]);
  }

  lemma SelectedRest(refs: seq<Ref>, mod: nat, k: nat)
    requires refs != [] && PosAscend(Selected(refs, mod, k))
    ensures PosAscend(Selected(refs[1..], mod, k))
  {
    SelectedCons(refs, mod, k);
    TailAscends(Selected(refs, mod, k), Selected(refs[1..], mod, k));
  }

  lemma SelectedHas(refs: seq<Ref>, j: nat)
    requires j < |refs|
    ensures refs[j] in Selected(refs, refs[j].mod, refs[j].section)
  {
    SelectedMembers(refs, refs[j].mod, refs[j].section);
  }

  lemma FirstBelow(first: Ref, tail: seq<Ref>, r: Ref)
    requires PosAscend([first] + tail) && r in tail
    ensures first.pos <= r.pos
  {
    var all := [first] + tail;
    var t :| 0 <= t < |tail| && tail[t] == r;
    assert all[0] == first && all[t + 1] == r;
  }

  lemma TailAscends(all: seq<Ref>, tail: seq<Ref>)
    requires PosAscend(all) && |tail| <= |all| && all[|all| - |tail|..] == tail
    ensures PosAscend(tail)
  {
    assert forall i :: 0 <= i < |tail| ==> tail[i] == all[|all| - |tail| + i];
  }

  lemma {:induction false} SectionThenModule(refs: seq<Ref>, mod: nat, k: nat)
    ensures ToModule(InSection(refs, k), mod) == InSection(ToModule(refs, mod), k)
  {
    if refs != [] {
      SectionThenModule(refs[1..], mod, k);
      var s, m := InSection(refs, k), ToModule(refs, mod);
      assert if refs[0].section == k then s[1..] == InSection(refs[1..], k) else s == InSection(refs[1..], k);
      assert if refs[0].mod == mod then m[1..] == ToModule(refs[1..], mod) else m == ToModule(refs[1..], mod);
    }
  }

  /** What extraction leaves for the sections of a whole module. */
  predicate Extracted(refs: seq<Ref>, lens: seq<nat>, symtab: seq<Symbol>, relaSecs: seq<seq<Rela>>) {
    && |relaSecs| == |lens|
    && forall k :: 0 <= k < |lens| ==> AllStand(symtab, relaSecs[k], RefsIn(refs, WholeModule(lens)[k]), 0)
  }

  lemma ExtractedSection(refs: seq<Ref>, lens: seq<nat>, symtab: seq<Symbol>, relaSecs: seq<seq<Rela>>, own: nat,
                         modules: seq<seq<Symbol>>, mod: nat, k: nat)
    requires Sliceable(refs, lens) && Extracted(refs, lens, symtab, relaSecs) && k < |lens|
    ensures ValidIndices(relaSecs[k], symtab)
    ensures Wanted(mod, ResolvedTo(own, symtab, modules, relaSecs[k], mod), k) == InSection(ToModule(refs, mod), k)
    ensures SortedFrom(ResolvedTo(own, symtab, modules, relaSecs[k], mod), 0) <==> PosAscend(Selected(refs, mod, k))
  {
    WholeSectionRefs(refs, lens, k);
    InSectionOnly(refs, k);
    StandingValid(symtab, relaSecs[k], InSection(refs, k));
    StandingAreWanted(symtab, relaSecs[k], InSection(refs, k), own, modules, mod, k);
    SectionThenModule(refs, mod, k);
    var relocs := ResolvedTo(own, symtab, modules, relaSecs[k], mod);
    assert Wanted(mod, relocs, k) == Selected(refs, mod, k);
    if SortedFrom(relocs, 0) {
      SortedIsAscending(mod, relocs, k, 0);
    } else if PosAscend(Selected(refs, mod, k)) {
      AscendingIsSorted(mod, relocs, k, 0);
    }
  }

  lemma {:induction false} InSectionOnly(refs: seq<Ref>, k: nat)
    ensures forall i :: 0 <= i < |InSection(refs, k)| ==> InSection(refs, k)[i].section == k
  {
    if refs != [] { InSectionOnly(refs[1..], k); }
  }

  /** The encoder accepts every group exactly when the places of one section against one module ascend. */
  lemma ExtractedSorted(refs: seq<Ref>, lens: seq<nat>, symtab: seq<Symbol>, relaSecs: seq<seq<Rela>>, own: nat,
                        modules: seq<seq<Symbol>>)
    requires Sliceable(refs, lens) && Extracted(refs, lens, symtab, relaSecs)
    ensures AllValidIndices(relaSecs, symtab) && (AllSorted(own, symtab, modules, relaSecs) <==> PlacesAscend(refs))
  {
    forall k | 0 <= k < |relaSecs| ensures ValidIndices(relaSecs[k], symtab) {
      ExtractedSection(refs, lens, symtab, relaSecs, own, modules, 0, k);
    }
    if PlacesAscend(refs) {
      forall k, m: nat | 0 <= k < |relaSecs|
        ensures SortedFrom(ResolvedTo(own, symtab, modules, relaSecs[k], m), 0)
      {
        ExtractedSection(refs, lens, symtab, relaSecs, own, modules, m, k);
        FilterAscends(refs, m, k);
      }
    } else if AllSorted(own, symtab, modules, relaSecs) {
      forall i, j | 0 <= i < j < |refs| && refs[i].section == refs[j].section && refs[i].mod == refs[j].mod
        ensures refs[i].pos <= refs[j].pos
      {
        var k, m := refs[i].section, refs[i].mod;
        assert SortedFrom(ResolvedTo(own, symtab, modules, relaSecs[k], m), 0);
        ExtractedSection(refs, lens, symtab, relaSecs, own, modules, m, k);
        FilterShows(refs, i, j);
      }
    }
  }

  lemma {:induction false} WantedGroupsConcat(mod: nat, a: seq<Group>, b: seq<Group>)
    ensures WantedGroups(mod, a + b) == WantedGroups(mod, a) + WantedGroups(mod, b)
  {
    if a == [] {
      assert a + b == b;
    } else {
      assert (a + b)[0] == a[0] && (a + b)[1..] == a[1..] + b;
      WantedGroupsConcat(mod, a[1..], b);
    }
  }

  /** What one more section adds to the groups. */
  lemma GroupsOfSnoc(own: nat, symtab: seq<Symbol>, modules: seq<seq<Symbol>>, relaSecs: seq<seq<Rela>>, mod: nat,
                     n: nat, refs: seq<Ref>)
    requires n < |relaSecs| && AllValidIndices(relaSecs, symtab)
    requires AllValidIndices(relaSecs[..n], symtab) && AllValidIndices(relaSecs[..n + 1], symtab)
    requires Wanted(mod, ResolvedTo(own, symtab, modules, relaSecs[n], mod), n) == refs
    ensures WantedGroups(mod, GroupsOf(own, symtab, modules, relaSecs[..n + 1], mod))
         == WantedGroups(mod, GroupsOf(own, symtab, modules, relaSecs[..n], mod)) + refs
  {
    var here := ResolvedTo(own, symtab, modules, relaSecs[n], mod);
    var last := if here != [] then [Group(n, here)] else [];
    GroupsStep(own, symtab, modules, relaSecs, n, mod);
    WantedGroupsConcat(mod, GroupsOf(own, symtab, modules, relaSecs[..n], mod), last);
    LastWanted(mod, n, here);
  }

  lemma LastWanted(mod: nat, n: nat, here: seq<ElfReloc>)
    ensures WantedGroups(mod, if here != [] then [Group(n, here)] else []) == Wanted(mod, here, n)
  {
    if here != [] {
      assert [Group(n, here)][1..] == [];
      assert WantedGroups(mod, [Group(n, here)]) == Wanted(mod, here, n) + [];
    }
  }

  lemma PrefixValid(relaSecs: seq<seq<Rela>>, symtab: seq<Symbol>, n: nat)
    requires n <= |relaSecs| && AllValidIndices(relaSecs, symtab)
    ensures AllValidIndices(relaSecs[..n], symtab)
  {
  }

  /** The groups of the sections before `n` say what the references of these sections say. */
  lemma {:induction false} GroupsAreSections(refs: seq<Ref>, lens: seq<nat>, symtab: seq<Symbol>,
                                             relaSecs: seq<seq<Rela>>, own: nat, modules: seq<seq<Symbol>>, mod: nat,
                                             n: nat)
    requires Sliceable(refs, lens) && Extracted(refs, lens, symtab, relaSecs) && n <= |lens|
    requires AllValidIndices(relaSecs, symtab) && AllValidIndices(relaSecs[..n], symtab)
    ensures WantedGroups(mod, GroupsOf(own, symtab, modules, relaSecs[..n], mod)) == BySection(ToModule(refs, mod), n)
    decreases n
  {
    if n == 0 {
      assert relaSecs[..0] == [];
    } else {
      PrefixValid(relaSecs, symtab, n - 1);
      GroupsAreSections(refs, lens, symtab, relaSecs, own, modules, mod, n - 1);
      ExtractedSection(refs, lens, symtab, relaSecs, own, modules, mod, n - 1);
      GroupsOfSnoc(own, symtab, modules, relaSecs, mod, n - 1, InSection(ToModule(refs, mod), n - 1));
    }
  }

  lemma {:induction false} GroupsReal(refs: seq<Ref>, lens: seq<nat>, symtab: seq<Symbol>, relaSecs: seq<seq<Rela>>,
                                      own: nat, modules: seq<seq<Symbol>>, mod: nat, n: nat)
    requires Sliceable(refs, lens) && Extracted(refs, lens, symtab, relaSecs) && n <= |lens|
    requires AllValidIndices(relaSecs, symtab) && AllValidIndices(relaSecs[..n], symtab)
    requires forall i :: 0 <= i < |refs| ==> refs[i].kind < R_RVL_NONE
    ensures RealGroups(GroupsOf(own, symtab, modules, relaSecs[..n], mod))
    decreases n
  {
    if n == 0 {
      assert relaSecs[..0] == [];
    } else {
      PrefixValid(relaSecs, symtab, n - 1);
      GroupsReal(refs, lens, symtab, relaSecs, own, modules, mod, n - 1);
      ExtractedSection(refs, lens, symtab, relaSecs, own, modules, mod, n - 1);
      WantedReal(refs, lens, ResolvedTo(own, symtab, modules, relaSecs[n - 1], mod), mod, n - 1);
      GroupsStep(own, symtab, modules, relaSecs, n - 1, mod);
    }
  }

  lemma WantedReal(refs: seq<Ref>, lens: seq<nat>, here: seq<ElfReloc>, mod: nat, k: nat)
    requires Sliceable(refs, lens) && k < |lens| && forall i :: 0 <= i < |refs| ==> refs[i].kind < R_RVL_NONE
    requires Wanted(mod, here, k) == InSection(ToModule(refs, mod), k)
    ensures RealTypes(here)
  {
    var w := Wanted(mod, here, k);
    SectionThenModule(refs, mod, k);
    SelectedMembers(refs, mod, k);
    forall i | 0 <= i < |here| ensures here[i].0.kind < R_RVL_NONE {
      assert w[i] in Selected(refs, mod, k) && w[i].kind == here[i].0.kind;
    }
  }

  // ----- from the old tables to the new ones -----

  lemma {:induction false} ReadRefsModule(mod: nat, table: seq<Reloc>, pos: nat, sec: nat)
    ensures forall i :: 0 <= i < |ReadRefs(mod, table, pos, sec)| ==>
              ReadRefs(mod, table, pos, sec)[i].mod == mod && ReadRefs(mod, table, pos, sec)[i].kind < R_RVL_NONE
    decreases |table|
  {
    if table != [] {
      if table[0].kind == R_RVL_SECT {
        ReadRefsModule(mod, table[1..], 0, table[0].section);
      } else {
        ReadRefsModule(mod, table[1..], pos + table[0].offset, sec);
      }
    }
  }

  lemma {:induction false} ToModuleConcat(a: seq<Ref>, b: seq<Ref>, mod: nat)
    ensures ToModule(a + b, mod) == ToModule(a, mod) + ToModule(b, mod)
  {
    if a == [] {
      assert a + b == b;
    } else {
      var here := if a[0].mod == mod then [a[0]] else [];
      assert (a + b)[0] == a[0] && (a + b)[1..] == a[1..] + b;
      ToModuleConcat(a[1..], b, mod);
      JoinThree(here, ToModule(a[1..], mod), ToModule(b, mod));
    }
  }

  lemma JoinThree(a: seq<Ref>, b: seq<Ref>, c: seq<Ref>)
    ensures a + (b + c) == (a + b) + c
  {
  }

  lemma {:induction false} ToModuleSame(refs: seq<Ref>, m: nat, mod: nat)
    requires forall i :: 0 <= i < |refs| ==> refs[i].mod == m
    ensures ToModule(refs, mod) == if m == mod then refs else []
  {
    if refs != [] { ToModuleSame(refs[1..], m, mod); }
  }

  /** The references of a module to one other module are those of that module's table. */
  lemma {:induction false} RefsOfTable(tables: seq<ModuleTable>, mod: nat)
    requires Distinct(Keys(tables))
    ensures ToModule(AllRefs(tables), mod) == ReadRefs(mod, TableOf(tables, mod), 0, 0)
    decreases |tables|
  {
    if tables != [] {
      var t := tables[0];
      ReadRefsModule(t.mod, t.table, 0, 0);
      ToModuleSame(ReadRefs(t.mod, t.table, 0, 0), t.mod, mod);
      ToModuleConcat(ReadRefs(t.mod, t.table, 0, 0), AllRefs(tables[1..]), mod);
      assert forall i :: 0 <= i < |tables[1..]| ==> Keys(tables[1..])[i] == Keys(tables)[i + 1];
      RefsOfTable(tables[1..], mod);
      if t.mod == mod {
        NoTable(tables[1..], mod);
      }
    }
  }

  lemma {:induction false} NoTable(tables: seq<ModuleTable>, mod: nat)
    requires forall i :: 0 <= i < |tables| ==> tables[i].mod != mod
    ensures TableOf(tables, mod) == []
  {
    if tables != [] { NoTable(tables[1..], mod); }
  }

  lemma {:induction false} AllRefsReal(tables: seq<ModuleTable>)
    ensures forall i :: 0 <= i < |AllRefs(tables)| ==> AllRefs(tables)[i].kind < R_RVL_NONE
  {
    if tables != [] {
      ReadRefsModule(tables[0].mod, tables[0].table, 0, 0);
      AllRefsReal(tables[1..]);
    }
  }

  /** Slicing a module into one object and rebuilding it: the encoder accepts the relocations exactly when those of one
      section against one module ascend, and then the new table of every module decodes to the references of the old
      one, section by section in their old order. */
  lemma RebuildKeepsReferences(tables: seq<ModuleTable>, lens: seq<nat>, symtab: seq<Symbol>, relaSecs: seq<seq<Rela>>,
                               own: nat, modules: seq<seq<Symbol>>, mod: nat)
    requires Distinct(Keys(tables)) && Sliceable(AllRefs(tables), lens)
    requires Extracted(AllRefs(tables), lens, symtab, relaSecs)
    ensures AllValidIndices(relaSecs, symtab)
    ensures AllSorted(own, symtab, modules, relaSecs) <==> PlacesAscend(AllRefs(tables))
    ensures PlacesAscend(AllRefs(tables)) ==>
              var groups := GroupsOf(own, symtab, modules, relaSecs, mod);
              && SortedGroups(groups)
              && ReadRefs(mod, EncodeGroups(groups), 0, 0)
              == BySection(ReadRefs(mod, TableOf(tables, mod), 0, 0), |lens|)
  {
    var refs := AllRefs(tables);
    ExtractedSorted(refs, lens, symtab, relaSecs, own, modules);
    if PlacesAscend(refs) {
      GroupsSorted(own, symtab, modules, relaSecs, mod);
      AllRefsReal(tables);
      RefsOfTable(tables, mod);
      GroupsSay(refs, lens, symtab, relaSecs, own, modules, mod);
    }
  }

  /** The encoded groups decode to the references of their module, section by section. */
  lemma GroupsSay(refs: seq<Ref>, lens: seq<nat>, symtab: seq<Symbol>, relaSecs: seq<seq<Rela>>, own: nat,
                  modules: seq<seq<Symbol>>, mod: nat)
    requires Sliceable(refs, lens) && Extracted(refs, lens, symtab, relaSecs) && AllValidIndices(relaSecs, symtab)
    requires forall i :: 0 <= i < |refs| ==> refs[i].kind < R_RVL_NONE
    requires SortedGroups(GroupsOf(own, symtab, modules, relaSecs, mod))
    ensures ReadRefs(mod, EncodeGroups(GroupsOf(own, symtab, modules, relaSecs, mod)), 0, 0)
         == BySection(ToModule(refs, mod), |lens|)
  {
    assert relaSecs[..|lens|] == relaSecs;
    GroupsReal(refs, lens, symtab, relaSecs, own, modules, mod, |lens|);
    GroupsAreSections(refs, lens, symtab, relaSecs, own, modules, mod, |lens|);
    TableRoundTrip(mod, GroupsOf(own, symtab, modules, relaSecs, mod));
  }

  // ----- tables whose places ascend -----

  /** No section change of the table names section `sec`. */
  predicate NotNamed(table: seq<Reloc>, sec: nat) {
    forall i :: 0 <= i < |table| && table[i].kind == R_RVL_SECT ==> table[i].section != sec
  }

  /** The table names each section at most once. */
  predicate NamesOnce(table: seq<Reloc>) {
    forall i, j :: 0 <= i < j < |table| && table[i].kind == R_RVL_SECT && table[j].kind == R_RVL_SECT ==>
      table[i].section != table[j].section
  }

  lemma {:induction false} OnceAscends(mod: nat, table: seq<Reloc>, pos: nat, sec: nat)
    requires NamesOnce(table) && NotNamed(table, sec)
    ensures PlacesAscend(ReadRefs(mod, table, pos, sec))
    ensures forall r :: r in ReadRefs(mod, table, pos, sec) ==>
              if r.section == sec then pos <= r.pos else !NotNamed(table, r.section)
    decreases |table|
  {
    if table != [] {
      var e, rest := table[0], table[1..];
      var sec' := if e.kind == R_RVL_SECT then e.section else sec;
      var pos' := if e.kind == R_RVL_SECT then 0 else pos + e.offset;
      OnceAscends(mod, rest, pos', sec');
      OnceStep(mod, table, pos, sec, pos', sec');
    }
  }

  lemma OnceStep(mod: nat, table: seq<Reloc>, pos: nat, sec: nat, pos': nat, sec': nat)
    requires table != [] && NamesOnce(table) && NotNamed(table, sec)
    requires if table[0].kind == R_RVL_SECT then pos' == 0 && sec' == table[0].section
             else pos' == pos + table[0].offset && sec' == sec
    requires PlacesAscend(ReadRefs(mod, table[1..], pos', sec'))
    requires forall r :: r in ReadRefs(mod, table[1..], pos', sec') ==>
               if r.section == sec' then pos' <= r.pos else !NotNamed(table[1..], r.section)
    ensures PlacesAscend(ReadRefs(mod, table, pos, sec))
    ensures forall r :: r in ReadRefs(mod, table, pos, sec) ==>
              if r.section == sec then pos <= r.pos else !NotNamed(table, r.section)
  {
    var all, rest := ReadRefs(mod, table, pos, sec), ReadRefs(mod, table[1..], pos', sec');
    forall s | !NotNamed(table[1..], s) ensures !NotNamed(table, s) {
      var i :| 0 <= i < |table[1..]| && table[1..][i].kind == R_RVL_SECT && table[1..][i].section == s;
      assert table[i + 1].section == s;
    }
    if IsRef(table[0]) {
      assert all[0].section == sec && all[0].pos == pos' && all[1..] == rest;
      forall i, j | 0 <= i < j < |all| && all[i].section == all[j].section && all[i].mod == all[j].mod
        ensures all[i].pos <= all[j].pos
      {
        assert all[j] == rest[j - 1] && rest[j - 1] in rest;
        if i > 0 { assert all[i] == rest[i - 1]; }
      }
      assert all == [all[0]] + rest;
    } else {
      assert all == rest;
    }
  }

  lemma AscendConcat(a: seq<Ref>, b: seq<Ref>)
    requires PlacesAscend(a) && PlacesAscend(b) && forall i, j :: 0 <= i < |a| && 0 <= j < |b| ==> a[i].mod != b[j].mod
    ensures PlacesAscend(a + b)
  {
  }

  /** Tables that begin with a section change and name each section once ascend, so that the encoder accepts what is
      extracted from them. */
  lemma {:induction false} TablesAscend(tables: seq<ModuleTable>)
    requires Distinct(Keys(tables))
    requires forall i :: 0 <= i < |tables| ==>
               var t := tables[i].table; t != [] && t[0].kind == R_RVL_SECT && NamesOnce(t)
    ensures PlacesAscend(AllRefs(tables))
    ensures forall r :: r in AllRefs(tables) ==> r.mod in Keys(tables)
  {
    if tables != [] {
      var t, mod, rest := tables[0].table, tables[0].mod, tables[1..];
      assert forall i :: 0 <= i < |rest| ==> Keys(rest)[i] == Keys(tables)[i + 1];
      TablesAscend(rest);
      assert Keys(tables)[0] == mod;
      assert NamesOnce(t[1..]) && NotNamed(t[1..], t[0].section);
      OnceAscends(mod, t[1..], 0, t[0].section);
      ReadRefsModule(mod, t, 0, 0);
      var a, b := ReadRefs(mod, t, 0, 0), AllRefs(rest);
      forall i, j | 0 <= i < |a| && 0 <= j < |b| ensures a[i].mod != b[j].mod {
        assert b[j] in b && b[j].mod in Keys(rest);
      }
      AscendConcat(a, b);
      forall r | r in b ensures r.mod in Keys(tables) {
        assert Keys(tables)[1..] == Keys(rest);
      }
    }
  }

  // ----- section by section is a rearrangement -----

  lemma {:induction false} InSectionCount(refs: seq<Ref>, k: nat, r: Ref)
    ensures Count(InSection(refs, k), r) == if r.section == k then Count(refs, r) else 0
  {
    if refs != [] {
      var here := if refs[0].section == k then [refs[0]] else [];
      InSectionCount(refs[1..], k, r);
      CountConcat(here, InSection(refs[1..], k), r);
      CountOne(refs[0], r);
    }
  }

  lemma {:induction false} BySectionCount(refs: seq<Ref>, n: nat, r: Ref)
    ensures Count(BySection(refs, n), r) == if r.section < n then Count(refs, r) else 0
  {
    if n > 0 {
      BySectionCount(refs, n - 1, r);
      InSectionCount(refs, n - 1, r);
      CountConcat(BySection(refs, n - 1), InSection(refs, n - 1), r);
    }
  }

  /** The new order loses and repeats nothing. */
  lemma BySectionPermutes(refs: seq<Ref>, n: nat)
    requires forall i :: 0 <= i < |refs| ==> refs[i].section < n
    ensures multiset(BySection(refs, n)) == multiset(refs)
  {
    forall r ensures multiset(BySection(refs, n))[r] == multiset(refs)[r] {
      BySectionCount(refs, n, r);
      CountIsMultiset(BySection(refs, n), r);
      CountIsMultiset(refs, r);
      if r.section >= n { assert r !in refs; }
    }
  }

  /** The sections ascend and lie below `n`. */
  predicate SectionsAscend(refs: seq<Ref>, n: nat) {
    && (forall i :: 0 <= i < |refs| ==> refs[i].section < n)
    && (forall i, j :: 0 <= i < j < |refs| ==> refs[i].section <= refs[j].section)
  }

  lemma AscendFront(refs: seq<Ref>, n: nat)
    requires SectionsAscend(refs, n) && refs != []
    ensures SectionsAscend(refs[..|refs| - 1], n)
    ensures n > 0 && refs[|refs| - 1].section <= n - 1
    ensures refs[|refs| - 1].section != n - 1 ==> SectionsAscend(refs, n - 1)
  {
    var last := refs[|refs| - 1];
    forall i | 0 <= i < |refs| ensures refs[i].section <= last.section {
      if i < |refs| - 1 { assert refs[i].section <= refs[|refs| - 1].section; }
    }
  }

  /** References whose sections already ascend keep their order entirely. */
  lemma {:induction false} BySectionIdentity(refs: seq<Ref>, n: nat)
    requires SectionsAscend(refs, n)
    ensures BySection(refs, n) == refs
    decreases n, |refs|
  {
    if refs == [] {
      NothingBySection(n);
    } else {
      var last, front := refs[|refs| - 1], refs[..|refs| - 1];
      AscendFront(refs, n);
      if last.section == n - 1 {
        BySectionIdentity(front, n);
        AppendLast(front, last, n);
        FrontAndLast(refs);
      } else {
        BySectionIdentity(refs, n - 1);
        NoneIn(refs, n - 1);
        NothingAdded(refs, n);
      }
    }
  }

  lemma FrontAndLast(refs: seq<Ref>)
    requires refs != []
    ensures refs == refs[..|refs| - 1] + [refs[|refs| - 1]]
  {
  }

  lemma NothingAdded(refs: seq<Ref>, n: nat)
    requires n > 0 && BySection(refs, n - 1) == refs && InSection(refs, n - 1) == []
    ensures BySection(refs, n) == refs
  {
  }

  lemma {:induction false} NothingBySection(n: nat)
    ensures BySection([], n) == []
  {
    if n > 0 { NothingBySection(n - 1); }
  }

  lemma {:induction false} NoneIn(refs: seq<Ref>, k: nat)
    requires forall i :: 0 <= i < |refs| ==> refs[i].section != k
    ensures InSection(refs, k) == []
  {
    if refs != [] { NoneIn(refs[1..], k); }
  }

  lemma {:induction false} InSectionSnoc(refs: seq<Ref>, r: Ref, k: nat)
    ensures InSection(refs + [r], k) == InSection(refs, k) + (if r.section == k then [r] else [])
  {
    if refs == [] {
      assert refs + [r] == [r] && [r][1..] == [];
    } else {
      assert (refs + [r])[0] == refs[0] && (refs + [r])[1..] == refs[1..] + [r];
      InSectionSnoc(refs[1..], r, k);
      var here, rest := if refs[0].section == k then [refs[0]] else [], InSection(refs[1..], k);
      var last := if r.section == k then [r] else [];
      assert here + (rest + last) == (here + rest) + last;
    }
  }

  lemma {:induction false} BelowSame(refs: seq<Ref>, r: Ref, n: nat)
    requires r.section >= n
    ensures BySection(refs + [r], n) == BySection(refs, n)
  {
    if n > 0 {
      BelowSame(refs, r, n - 1);
      InSectionSnoc(refs, r, n - 1);
    }
  }

  lemma AppendLast(refs: seq<Ref>, r: Ref, n: nat)
    requires r.section == n - 1
    ensures BySection(refs + [r], n) == BySection(refs, n) + [r]
  {
    BelowSame(refs, r, n - 1);
    InSectionSnoc(refs, r, n - 1);
  }
}
