/** A whole module taken apart and built again: tools/slice_rel.py, tools/build_rel.py and the writer, the reader and
    the decoder of REL files, one after the other, with linking taken as the identity on one object. */
module RelRebuilt {
  import opened Bytes
  import opened RelEncoded
  import opened RelFile
  import opened RelFormat
  import opened RelLayout
  import opened RelMeaning
  import opened RelPatch
  import opened RelPipeline
  import opened RelRebuild
  import opened RelRepair
  import opened RelScan
  import opened RelTable
  import opened RelTypes
  import opened Wrappers

  // ----- what is asked of the module that is taken apart -----

  /** The references to one module: what its table says. */
  function RefsTo(tables: seq<ModuleTable>, m: nat): seq<Ref> {
    ReadRefs(m, TableOf(tables, m), 0, 0)
  }

  /** In every section the own module's branches leave a table that means the same and can be written. */
  predicate BranchesResolve(refs: seq<Ref>, n: nat) {
    forall k :: 0 <= k < n ==> BranchesNear(InSection(refs, k)) && Refits(InSection(refs, k), 0, 0)
  }

  /** The fields of all references are ones that a REL file can hold. */
  predicate AllHeld(refs: seq<Ref>) {
    forall i :: 0 <= i < |refs| ==> KnownType(refs[i].kind) && refs[i].kind < R_RVL_NONE && RefFits(refs[i])
  }

  /** The module can be sliced, and built again as module `own`. */
  predicate Rebuildable(tables: seq<ModuleTable>, lens: seq<nat>, own: nat) {
    && Distinct(Keys(tables)) && |lens| <= 256
    && Sliceable(AllRefs(tables), lens) && PlacesAscend(AllRefs(tables)) && AllHeld(AllRefs(tables))
    && BranchesResolve(RefsTo(tables, own), |lens|)
  }

  /** What the objects of the build hold. */
  datatype Build = Build(own: nat, symtab: seq<Symbol>, modules: seq<seq<Symbol>>, relaSecs: seq<seq<Rela>>)

  function GroupsTo(b: Build, m: nat): seq<Group>
    requires AllValidIndices(b.relaSecs, b.symtab)
  {
    GroupsOf(b.own, b.symtab, b.modules, b.relaSecs, m)
  }

  /** The tables that the build makes: one for each module that is referred to. */
  ghost predicate IsRebuilt(news: seq<ModuleTable>, b: Build)
    requires AllValidIndices(b.relaSecs, b.symtab)
  {
    && Distinct(Keys(news))
    && (forall m: nat :: m in Keys(news) <==> GroupsTo(b, m) != [])
    && forall i :: 0 <= i < |news| ==>
         SortedGroups(GroupsTo(b, news[i].mod)) && news[i].table == EncodeGroups(GroupsTo(b, news[i].mod))
  }

  /** Extraction has left these objects for the module. */
  ghost predicate TakenApart(tables: seq<ModuleTable>, lens: seq<nat>, b: Build) {
    Rebuildable(tables, lens, b.own) && Extracted(AllRefs(tables), lens, b.symtab, b.relaSecs)
  }

  // ----- the groups of the build are the sections of the old tables -----

  lemma {:induction false} GroupsIndex(own: nat, symtab: seq<Symbol>, modules: seq<seq<Symbol>>,
                                       relaSecs: seq<seq<Rela>>, m: nat, i: nat)
    requires AllValidIndices(relaSecs, symtab) && i < |GroupsOf(own, symtab, modules, relaSecs, m)|
    ensures var g := GroupsOf(own, symtab, modules, relaSecs, m)[i];
            g.secIdx < |relaSecs| && g.relocs == ResolvedTo(own, symtab, modules, relaSecs[g.secIdx], m)
    decreases |relaSecs|
  {
    var n := |relaSecs|;
    var front := GroupsOf(own, symtab, modules, relaSecs[..n - 1], m);
    if i < |front| {
      GroupsIndex(own, symtab, modules, relaSecs[..n - 1], m, i);
      assert relaSecs[..n - 1][front[i].secIdx] == relaSecs[front[i].secIdx];
    }
  }

  lemma GroupSays(tables: seq<ModuleTable>, lens: seq<nat>, b: Build, m: nat, i: nat)
    requires TakenApart(tables, lens, b) && AllValidIndices(b.relaSecs, b.symtab) && i < |GroupsTo(b, m)|
    ensures var g := GroupsTo(b, m)[i];
            g.secIdx < |lens| && Wanted(m, g.relocs, g.secIdx) == InSection(RefsTo(tables, m), g.secIdx)
  {
    GroupsIndex(b.own, b.symtab, b.modules, b.relaSecs, m, i);
    var k := GroupsTo(b, m)[i].secIdx;
    ExtractedSection(AllRefs(tables), lens, b.symtab, b.relaSecs, b.own, b.modules, m, k);
    RefsOfTable(tables, m);
  }

  lemma {:induction false} InSectionMembers(refs: seq<Ref>, k: nat)
    ensures forall r :: r in InSection(refs, k) ==> r in refs
  {
    if refs != [] {
      InSectionMembers(refs[1..], k);
      assert refs == [refs[0]] + refs[1..];
    }
  }

  lemma {:induction false} ToModuleMembers(refs: seq<Ref>, m: nat)
    ensures forall r :: r in ToModule(refs, m) ==> r in refs
  {
    if refs != [] {
      ToModuleMembers(refs[1..], m);
      assert refs == [refs[0]] + refs[1..];
    }
  }

  predicate Held(r: Ref) {
    KnownType(r.kind) && r.kind < R_RVL_NONE && RefFits(r)
  }

  lemma SectionHeld(tables: seq<ModuleTable>, m: nat, k: nat)
    requires Distinct(Keys(tables)) && AllHeld(AllRefs(tables))
    ensures forall i :: 0 <= i < |InSection(RefsTo(tables, m), k)| ==> Held(InSection(RefsTo(tables, m), k)[i])
  {
    var all, here := AllRefs(tables), InSection(RefsTo(tables, m), k);
    RefsOfTable(tables, m);
    ToModuleMembers(all, m);
    InSectionMembers(RefsTo(tables, m), k);
    forall i | 0 <= i < |here| ensures Held(here[i]) {
      assert here[i] in all;
      var j :| 0 <= j < |all| && all[j] == here[i];
      assert KnownType(all[j].kind) && RefFits(all[j]);
    }
  }

  lemma HeldGroup(mod: nat, g: Group, refs: seq<Ref>)
    requires refs == Wanted(mod, g.relocs, g.secIdx) && forall i :: 0 <= i < |refs| ==> Held(refs[i])
    ensures KnownRelocs(g.relocs) && RealTypes(g.relocs) && AllRefsFit(refs)
  {
    forall i | 0 <= i < |g.relocs| ensures KnownType(g.relocs[i].0.kind) && g.relocs[i].0.kind < R_RVL_NONE {
      assert Held(refs[i]) && refs[i].kind == g.relocs[i].0.kind;
    }
  }

  /** The groups for one module: known types, fields that fit, and for the own one branches that resolve. */
  lemma GroupsGood(tables: seq<ModuleTable>, lens: seq<nat>, b: Build, m: nat)
    requires TakenApart(tables, lens, b) && AllValidIndices(b.relaSecs, b.symtab)
    ensures KnownGroups(GroupsTo(b, m)) && RealGroups(GroupsTo(b, m))
    ensures forall i :: 0 <= i < |GroupsTo(b, m)| ==>
              var g := GroupsTo(b, m)[i]; g.secIdx < 256 && AllRefsFit(Wanted(m, g.relocs, g.secIdx))
    ensures m == b.own ==> AllNear(m, GroupsTo(b, m)) && AllRefit(m, GroupsTo(b, m))
  {
    var groups := GroupsTo(b, m);
    forall i | 0 <= i < |groups|
      ensures KnownRelocs(groups[i].relocs) && RealTypes(groups[i].relocs) && groups[i].secIdx < 256
      ensures AllRefsFit(Wanted(m, groups[i].relocs, groups[i].secIdx))
      ensures m == b.own ==> var refs := Wanted(m, groups[i].relocs, groups[i].secIdx);
                             BranchesNear(refs) && Refits(refs, 0, 0)
    {
      GroupSays(tables, lens, b, m, i);
      SectionHeld(tables, m, groups[i].secIdx);
      HeldGroup(m, groups[i], Wanted(m, groups[i].relocs, groups[i].secIdx));
    }
  }

  // ----- the new tables meet the preconditions of the writer -----

  lemma NewTableGood(tables: seq<ModuleTable>, lens: seq<nat>, b: Build, m: nat, env: Env)
    requires TakenApart(tables, lens, b) && AllValidIndices(b.relaSecs, b.symtab) && env.index == b.own
    requires SortedGroups(GroupsTo(b, m))
    ensures var table := EncodeGroups(GroupsTo(b, m));
            && Terminated(table) && PlainSectionChanges(table) && Scannable(env, m, table)
            && (if m == b.own then GapSafe(table) && RepairedFits(table) else TableFits(table))
  {
    var groups := GroupsTo(b, m);
    GroupsGood(tables, lens, b, m);
    EncodedShape(env, m, groups);
    if m == b.own {
      EncodedGapSafe(m, groups);
      EncodedRefits(m, groups);
    } else {
      EncodedTableFits(m, groups);
    }
  }

  lemma NewTablesGood(tables: seq<ModuleTable>, lens: seq<nat>, b: Build, news: seq<ModuleTable>, env: Env)
    requires TakenApart(tables, lens, b) && AllValidIndices(b.relaSecs, b.symtab) && env.index == b.own
    requires IsRebuilt(news, b)
    ensures AllScannable(env, news) && GapSafeTables(env, news) && TablesWillFit(b.own, news)
    ensures forall i :: 0 <= i < |news| ==> Terminated(news[i].table)
  {
    forall i | 0 <= i < |news|
      ensures Terminated(news[i].table) && PlainSectionChanges(news[i].table)
      ensures Scannable(env, news[i].mod, news[i].table)
      ensures if news[i].mod == b.own then GapSafe(news[i].table) && RepairedFits(news[i].table)
              else TableFits(news[i].table)
    {
      NewTableGood(tables, lens, b, news[i].mod, env);
    }
    forall m | m in Keys(news)
      ensures if m == b.own then RepairedFits(TableOf(news, m)) else TableFits(TableOf(news, m))
    {
      var i :| 0 <= i < |news| && Keys(news)[i] == m;
      TableOfIndex(news, i);
    }
  }

  /** What `BuildTables` returns, listed by module in any order, are the rebuilt tables. */
  lemma BuiltIsRebuilt(news: seq<ModuleTable>, b: Build, built: map<nat, seq<Reloc>>)
    requires AllValidIndices(b.relaSecs, b.symtab) && Distinct(Keys(news))
    requires forall m: nat ::
               var groups := GroupsTo(b, m);
               && SortedGroups(groups) && (m in built <==> groups != [])
               && (m in built ==> built[m] == EncodeGroups(groups))
    requires forall m: nat :: m in Keys(news) <==> m in built
    requires forall i :: 0 <= i < |news| ==> news[i].mod in built && news[i].table == built[news[i].mod]
    ensures IsRebuilt(news, b)
  {
  }

  // ----- the new tables say what the old ones said -----

  /** Each new table decodes to the references of the old one, section by section. */
  lemma NewTableReads(tables: seq<ModuleTable>, lens: seq<nat>, b: Build, news: seq<ModuleTable>, m: nat)
    requires TakenApart(tables, lens, b) && AllValidIndices(b.relaSecs, b.symtab) && IsRebuilt(news, b)
    ensures RefsTo(news, m) == BySection(RefsTo(tables, m), |lens|)
  {
    RebuildKeepsReferences(tables, lens, b.symtab, b.relaSecs, b.own, b.modules, m);
    if m in Keys(news) {
      var i :| 0 <= i < |news| && Keys(news)[i] == m;
      TableOfIndex(news, i);
    } else {
      NotListed(news, m);
      StopOnly(m);
      assert GroupsTo(b, m) == [];
    }
  }

  lemma StopOnly(m: nat)
    ensures EncodeGroups([]) == [Stop] && ReadRefs(m, EncodeGroups([]), 0, 0) == []
  {
    assert EncodeGroups([]) == [Stop] && [Stop][1..] == [];
  }

  lemma {:induction false} ToModuleCount(refs: seq<Ref>, r: Ref)
    ensures multiset(ToModule(refs, r.mod))[r] == multiset(refs)[r]
  {
    if refs != [] {
      assert refs == [refs[0]] + refs[1..];
      ToModuleCount(refs[1..], r);
    }
  }

  lemma {:induction false} BranchCount(refs: seq<Ref>, r: Ref)
    ensures multiset(Branches(refs))[r] == if r.kind == R_PPC_REL24 then multiset(refs)[r] else 0
  {
    if refs != [] {
      assert refs == [refs[0]] + refs[1..];
      BranchCount(refs[1..], r);
    }
  }

  lemma RefCount(tables: seq<ModuleTable>, lens: seq<nat>, b: Build, news: seq<ModuleTable>, r: Ref)
    requires TakenApart(tables, lens, b) && AllValidIndices(b.relaSecs, b.symtab) && IsRebuilt(news, b)
    ensures multiset(AllRefs(news))[r] == multiset(AllRefs(tables))[r]
  {
    NewTableReads(tables, lens, b, news, r.mod);
    CountInTable(news, r);
    CountInTable(tables, r);
    BySectionCount(RefsTo(tables, r.mod), |lens|, r);
    NotPlaced(AllRefs(tables), lens, r);
  }

  lemma CountInTable(tables: seq<ModuleTable>, r: Ref)
    requires Distinct(Keys(tables))
    ensures multiset(AllRefs(tables))[r] == Count(RefsTo(tables, r.mod), r)
  {
    RefsOfTable(tables, r.mod);
    ToModuleCount(AllRefs(tables), r);
    CountIsMultiset(RefsTo(tables, r.mod), r);
  }

  lemma NotPlaced(refs: seq<Ref>, lens: seq<nat>, r: Ref)
    requires Sliceable(refs, lens)
    ensures r.section >= |lens| ==> multiset(refs)[r] == 0
  {
  }

  /** The branches of the new tables are those of the old ones, in another order. */
  lemma SameBranches(tables: seq<ModuleTable>, lens: seq<nat>, b: Build, news: seq<ModuleTable>)
    requires TakenApart(tables, lens, b) && AllValidIndices(b.relaSecs, b.symtab) && IsRebuilt(news, b)
    ensures multiset(Branches(AllRefs(news))) == multiset(Branches(AllRefs(tables)))
  {
    var x, y := multiset(Branches(AllRefs(news))), multiset(Branches(AllRefs(tables)));
    forall r: Ref ensures x[r] == y[r] {
      BranchCount(AllRefs(news), r);
      BranchCount(AllRefs(tables), r);
      RefCount(tables, lens, b, news, r);
    }
  }

  lemma TwiceCounted(refs: seq<Ref>, i: nat, j: nat)
    requires i < j < |refs| && refs[i] == refs[j]
    ensures multiset(refs)[refs[i]] >= 2
  {
    assert refs == refs[..i] + [refs[i]] + refs[i + 1..j] + [refs[j]] + refs[j + 1..];
  }

  lemma {:induction false} TwiceFound(refs: seq<Ref>, r: Ref) returns (i: nat, j: nat)
    requires multiset(refs)[r] >= 2
    ensures i < j < |refs| && refs[i] == refs[j] == r
  {
    assert refs == [refs[0]] + refs[1..];
    if refs[0] == r {
      assert r in refs[1..];
      var k :| 0 <= k < |refs[1..]| && refs[1..][k] == r;
      i, j := 0, k + 1;
    } else {
      i, j := TwiceFound(refs[1..], r);
      i, j := i + 1, j + 1;
    }
  }

  /** Whether sites are words of section data that do not overlap does not depend on their order. */
  lemma GoodSitesPermuted(env: Env, sections: seq<Section>, a: seq<Ref>, b: seq<Ref>)
    requires GoodSites(env, sections, a) && multiset(a) == multiset(b)
    ensures GoodSites(env, sections, b)
  {
    forall i | 0 <= i < |b| ensures SiteExists(env, b[i]) && InData(sections, b[i]) {
      assert b[i] in multiset(b) && b[i] in a;
      var k :| 0 <= k < |a| && a[k] == b[i];
    }
    forall i, j | 0 <= i < j < |b| ensures Apart(b[i], b[j]) {
      ApartPermuted(a, b, i, j);
    }
  }

  lemma ApartPermuted(a: seq<Ref>, b: seq<Ref>, i: nat, j: nat)
    requires forall k, l :: 0 <= k < l < |a| ==> Apart(a[k], a[l])
    requires multiset(a) == multiset(b) && i < j < |b|
    ensures Apart(b[i], b[j])
  {
    if b[i] == b[j] {
      TwiceCounted(b, i, j);
      var k, l := TwiceFound(a, b[i]);
    } else {
      assert b[i] in multiset(b) && b[j] in multiset(b) && b[i] in a && b[j] in a;
      var k :| 0 <= k < |a| && a[k] == b[i];
      var l :| 0 <= l < |a| && a[l] == b[j];
    }
  }

  // ----- the rebuilt file -----

  lemma {:induction false} InOrderTable(order: seq<nat>, tables: seq<ModuleTable>, m: nat)
    ensures TableOf(InOrder(order, tables), m) == if m in order then TableOf(tables, m) else []
    decreases |order|
  {
    if order != [] {
      InOrderHead(order, tables);
      assert InOrder(order, tables)[1..] == InOrder(order[1..], tables);
      InOrderTable(order[1..], tables, m);
    }
  }

  /** What the rebuilt module still relocates against module `m` when it is loaded. */
  function Expected(tables: seq<ModuleTable>, n: nat, own: nat, m: nat): seq<Ref> {
    var refs := BySection(RefsTo(tables, m), n);
    if m == own then Others(refs) else refs
  }

  /** What the tables of the image say for module `m`. */
  lemma ImageReads(tables: seq<ModuleTable>, lens: seq<nat>, b: Build, news: seq<ModuleTable>, order: seq<nat>,
                   left: seq<ModuleTable>, m: nat)
    requires TakenApart(tables, lens, b) && AllValidIndices(b.relaSecs, b.symtab) && IsRebuilt(news, b)
    requires forall k :: k in order <==> k in Keys(news)
    requires forall i :: 0 <= i < |news| ==>
               ReadRefs(news[i].mod, TableOf(left, news[i].mod), 0, 0) == LoadRefs(b.own, news[i])
    ensures RefsTo(InOrder(order, left), m) == Expected(tables, |lens|, b.own, m)
  {
    ImageOfNew(news, order, left, b.own, m);
    NewTableReads(tables, lens, b, news, m);
  }

  lemma ImageOfNew(news: seq<ModuleTable>, order: seq<nat>, left: seq<ModuleTable>, own: nat, m: nat)
    requires Distinct(Keys(news)) && forall k :: k in order <==> k in Keys(news)
    requires forall i :: 0 <= i < |news| ==>
               ReadRefs(news[i].mod, TableOf(left, news[i].mod), 0, 0) == LoadRefs(own, news[i])
    ensures RefsTo(InOrder(order, left), m) == if m == own then Others(RefsTo(news, m)) else RefsTo(news, m)
  {
    if m in order {
      var i :| 0 <= i < |news| && Keys(news)[i] == m;
      ImageIn(order, left, news, own, i);
    } else {
      ImageOut(order, left, news, m);
    }
  }

  lemma ImageIn(order: seq<nat>, left: seq<ModuleTable>, news: seq<ModuleTable>, own: nat, i: nat)
    requires Distinct(Keys(news)) && i < |news| && news[i].mod in order
    requires ReadRefs(news[i].mod, TableOf(left, news[i].mod), 0, 0) == LoadRefs(own, news[i])
    ensures var m := news[i].mod;
            RefsTo(InOrder(order, left), m) == if m == own then Others(RefsTo(news, m)) else RefsTo(news, m)
  {
    InOrderTable(order, left, news[i].mod);
    LoadsTable(own, news, i);
  }

  lemma ImageOut(order: seq<nat>, left: seq<ModuleTable>, news: seq<ModuleTable>, m: nat)
    requires m !in order && m !in Keys(news)
    ensures RefsTo(InOrder(order, left), m) == [] && RefsTo(news, m) == []
  {
    InOrderTable(order, left, m);
    NotListed(news, m);
  }

  lemma NotListed(news: seq<ModuleTable>, m: nat)
    requires m !in Keys(news)
    ensures TableOf(news, m) == []
  {
    assert forall i :: 0 <= i < |news| ==> Keys(news)[i] == news[i].mod;
    NoTable(news, m);
  }

  lemma LoadsTable(own: nat, news: seq<ModuleTable>, i: nat)
    requires Distinct(Keys(news)) && i < |news|
    ensures var m := news[i].mod;
            && Keys(news)[i] == m
            && LoadRefs(own, news[i]) == if m == own then Others(RefsTo(news, m)) else RefsTo(news, m)
  {
    TableOfIndex(news, i);
  }

  /** Every branch is linked in the file exactly when it can be. */
  ghost predicate AllLinked(file: seq<Byte>, info: nat, env: Env, sections: seq<Section>, refs: seq<Ref>) {
    && |sections| == |env.locs|
    && forall i :: 0 <= i < |refs| ==>
         && SiteExists(env, refs[i]) && InData(sections, refs[i])
         && LinkedIfPossible(file, info, env, sections, refs[i])
  }

  lemma LinkedPermuted(file: seq<Byte>, info: nat, env: Env, sections: seq<Section>, a: seq<Ref>, b: seq<Ref>)
    requires AllLinked(file, info, env, sections, a) && multiset(a) == multiset(b)
    ensures AllLinked(file, info, env, sections, b)
  {
    forall i | 0 <= i < |b|
      ensures SiteExists(env, b[i]) && InData(sections, b[i]) && LinkedIfPossible(file, info, env, sections, b[i])
    {
      assert b[i] in multiset(b) && b[i] in a;
      var k :| 0 <= k < |a| && a[k] == b[i];
    }
  }

  /** The tables of an image say, for every module, what the old tables said. */
  ghost predicate SaysExpected(image: seq<ModuleTable>, tables: seq<ModuleTable>, n: nat, own: nat) {
    forall m: nat :: RefsTo(image, m) == Expected(tables, n, own, m)
  }

  /** A module is taken apart into one object, its tables are built again, and the result is written: the file can be
      written if the numbers outside the tables fit; it reads back; its tables decode, module by module, to the
      references of the old tables, section by section and without the resolved branches; and every branch of the old
      tables is linked in it exactly when it can be. */
  lemma RebuiltFileMeaning(tables: seq<ModuleTable>, lens: seq<nat>, b: Build, news: seq<ModuleTable>, h: Header,
                           sections: seq<Section>, p: Plan, env: Env, alignment: nat, bssAlign: nat)
    requires TakenApart(tables, lens, b) && h.index == b.own && SectionsValid(sections)
    requires AllValidIndices(b.relaSecs, b.symtab) && IsRebuilt(news, b)
    requires h.version >= 3 ==> h.index in Keys(news)
    requires env == EnvOf(h, SectionLocs(sections, SectionsStart(h, sections)))
    requires GoodSites(env, sections, Branches(AllRefs(tables)))
    ensures Preparable(h, sections, news)
    ensures IsPlan(p, h, sections, news) && FieldsFit(p) ==>
              && Writable(p)
              && ParseRel(FileBytes(p), alignment, bssAlign)
              == Some(Image(HeaderBack(p.header, alignment, bssAlign), ReadBackAll(p.sections),
                            InOrder(ReadOrder(p), p.tables)))
              && SaysExpected(InOrder(ReadOrder(p), p.tables), tables, |lens|, b.own)
              && AllLinked(FileBytes(p), p.header.sectionInfoOffset, env, sections, Branches(AllRefs(tables)))
  {
    RebuiltPrepared(tables, lens, b, news, h, sections, env);
    if IsPlan(p, h, sections, news) && FieldsFit(p) {
      RebuiltPlanned(tables, lens, b, news, h, sections, p, env, alignment, bssAlign);
    }
  }

  lemma RebuiltPlanned(tables: seq<ModuleTable>, lens: seq<nat>, b: Build, news: seq<ModuleTable>, h: Header,
                       sections: seq<Section>, p: Plan, env: Env, alignment: nat, bssAlign: nat)
    requires TakenApart(tables, lens, b) && h.index == b.own && SectionsValid(sections)
    requires AllValidIndices(b.relaSecs, b.symtab) && IsRebuilt(news, b)
    requires env == EnvOf(h, SectionLocs(sections, SectionsStart(h, sections)))
    requires Preparable(h, sections, news) && GapSafeTables(env, news) && TablesWillFit(h.index, news)
    requires GoodSites(env, sections, Branches(AllRefs(news)))
    requires forall i :: 0 <= i < |news| ==> Terminated(news[i].table)
    requires IsPlan(p, h, sections, news) && FieldsFit(p)
    ensures Writable(p)
    ensures ParseRel(FileBytes(p), alignment, bssAlign)
         == Some(Image(HeaderBack(p.header, alignment, bssAlign), ReadBackAll(p.sections),
                       InOrder(ReadOrder(p), p.tables)))
    ensures SaysExpected(InOrder(ReadOrder(p), p.tables), tables, |lens|, b.own)
    ensures AllLinked(FileBytes(p), p.header.sectionInfoOffset, env, sections, Branches(AllRefs(tables)))
  {
    WrittenModuleMeaning(h, sections, news, p, env, alignment, bssAlign);
    ImageSays(tables, lens, b, news, ReadOrder(p), p.tables);
    SameBranches(tables, lens, b, news);
    LinkedPermuted(FileBytes(p), p.header.sectionInfoOffset, env, sections, Branches(AllRefs(news)),
                   Branches(AllRefs(tables)));
  }

  lemma ImageSays(tables: seq<ModuleTable>, lens: seq<nat>, b: Build, news: seq<ModuleTable>, order: seq<nat>,
                  left: seq<ModuleTable>)
    requires TakenApart(tables, lens, b) && AllValidIndices(b.relaSecs, b.symtab) && IsRebuilt(news, b)
    requires forall k :: k in order <==> k in Keys(news)
    requires forall i :: 0 <= i < |news| ==>
               ReadRefs(news[i].mod, TableOf(left, news[i].mod), 0, 0) == LoadRefs(b.own, news[i])
    ensures SaysExpected(InOrder(order, left), tables, |lens|, b.own)
  {
    forall m: nat ensures RefsTo(InOrder(order, left), m) == Expected(tables, |lens|, b.own, m) {
      ImageReads(tables, lens, b, news, order, left, m);
    }
  }

  lemma RebuiltPrepared(tables: seq<ModuleTable>, lens: seq<nat>, b: Build, news: seq<ModuleTable>, h: Header,
                        sections: seq<Section>, env: Env)
    requires TakenApart(tables, lens, b) && h.index == b.own
    requires AllValidIndices(b.relaSecs, b.symtab) && IsRebuilt(news, b)
    requires h.version >= 3 ==> h.index in Keys(news)
    requires env == EnvOf(h, SectionLocs(sections, SectionsStart(h, sections)))
    requires GoodSites(env, sections, Branches(AllRefs(tables)))
    ensures Preparable(h, sections, news) && GapSafeTables(env, news) && TablesWillFit(h.index, news)
    ensures GoodSites(env, sections, Branches(AllRefs(news)))
    ensures forall i :: 0 <= i < |news| ==> Terminated(news[i].table)
  {
    NewTablesGood(tables, lens, b, news, env);
    SameBranches(tables, lens, b, news);
    GoodSitesPermuted(env, sections, Branches(AllRefs(tables)), Branches(AllRefs(news)));
    SeenBranchesAreNamed(env, news);
    SeenSites(env, news);
  }
}
