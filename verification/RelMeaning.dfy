/** What the file that `Rel.write` of tools/relfile.py makes of a module means once it is loaded. */
module RelMeaning {
  import opened Bytes
  import opened Chunks
  import opened RelBranch
  import opened RelFile
  import opened RelFormat
  import opened RelLayout
  import opened RelPatch
  import opened RelRepair
  import opened RelScan
  import opened RelTable
  import opened RelTypes
  import opened Wrappers

  // ----- the relocation tables of the file -----

  lemma TerminatedDelete(table: seq<Reloc>)
    requires Terminated(table) && table[0].kind == R_PPC_REL24
    ensures |table| >= 2 && Terminated(AfterDelete(table))
  {
    assert table[|table| - 1].kind == R_RVL_STOP;
    var next := AfterDelete(table);
    forall i | 0 <= i < |next| ensures next[i].kind == table[i + 1].kind {
    }
    SameKindsTerminated(table, next);
  }

  lemma SameKindsTerminated(table: seq<Reloc>, next: seq<Reloc>)
    requires Terminated(table) && |next| == |table| - 1 && next != []
    requires forall i :: 0 <= i < |next| ==> next[i].kind == table[i + 1].kind
    ensures Terminated(next)
  {
  }

  lemma TerminatedCons(r: Reloc, rest: seq<Reloc>)
    requires Terminated(rest) && KnownType(r.kind) && r.kind != R_RVL_STOP
    ensures Terminated([r] + rest)
  {
    var table := [r] + rest;
    assert forall i :: 1 <= i < |table| ==> table[i] == rest[i - 1];
  }

  lemma {:induction false} ScanTerminated(env: Env, mod: nat, table: seq<Reloc>, pos: nat, sec: nat)
    requires Scannable(env, mod, table) && Terminated(table)
    ensures Terminated(Scan(env, mod, table, pos, sec).table)
    decreases |table|
  {
    var r := table[0];
    if r.kind == R_PPC_REL24 && mod == env.index {
      TerminatedDelete(table);
      ScanTerminated(env, mod, AfterDelete(table), pos, sec);
    } else if |table| > 1 {
      TerminatedTail(table);
      var next: nat, nextSec := if r.kind == R_RVL_SECT then r.offset else pos + r.offset,
                                if r.kind == R_RVL_SECT then r.section else sec;
      ScanTerminated(env, mod, table[1..], next, nextSec);
      TerminatedCons(r, Scan(env, mod, table[1..], next, nextSec).table);
    } else {
      assert table[1..] == [] && Scan(env, mod, table, pos, sec).table == [r];
    }
  }

  /** The references a module still relocates at load time, once its own branches are resolved. */
  function LoadRefs(index: nat, t: ModuleTable): seq<Ref> {
    var refs := ReadRefs(t.mod, t.table, 0, 0);
    if t.mod == index then Others(refs) else refs
  }

  lemma LeftTableRefs(env: Env, tables: seq<ModuleTable>, i: nat)
    requires AllScannable(env, tables) && GapSafeTables(env, tables) && i < |tables|
    ensures ReadRefs(tables[i].mod, LeftTables(env, tables)[i].table, 0, 0) == LoadRefs(env.index, tables[i])
  {
    var t := tables[i];
    assert Scannable(env, t.mod, t.table) && PlainSectionChanges(t.table);
    if t.mod == env.index {
      ScanKeepsOthers(env, t.table, 0, 0);
      GapSafeDropsNothing(t.table);
      ScanSeesTable(env, t.table, 0, 0);
    } else {
      ScanOtherModule(env, t.mod, t.table, 0, 0);
    }
  }

  lemma LeftTerminated(env: Env, tables: seq<ModuleTable>, order: seq<nat>)
    requires AllScannable(env, tables) && Distinct(Keys(tables)) && forall m :: m in order ==> m in Keys(tables)
    requires forall i :: 0 <= i < |tables| ==> Terminated(tables[i].table)
    ensures AllTerminated(order, LeftTables(env, tables))
  {
    var left := LeftTables(env, tables);
    forall m | m in order ensures Terminated(TableOf(left, m)) {
      var i :| 0 <= i < |tables| && Keys(tables)[i] == m;
      assert Scannable(env, tables[i].mod, tables[i].table) && Keys(left) == Keys(tables);
      ScanTerminated(env, tables[i].mod, tables[i].table, 0, 0);
      TableOfIndex(left, i);
    }
  }

  // ----- the branches of the file -----

  predicate HasInfo(file: seq<Byte>, info: nat, i: nat) {
    info + SECTION_INFO_SIZE * i + SECTION_INFO_SIZE <= |file|
  }

  /** The offset of section `i` that the section table at `info` records, as `ParseSection` reads it. */
  function Recorded(file: seq<Byte>, info: nat, i: nat): nat
    requires HasInfo(file, info, i)
  {
    Get32(file, info + SECTION_INFO_SIZE * i) / 4 * 4
  }

  /** The address of `x` in section `i` once the file is loaded at `base`: a section without a recorded offset stands
      at `place`, wherever the loader puts it. */
  function AddressIn(file: seq<Byte>, info: nat, i: nat, x: int, base: int, place: int): int
    requires HasInfo(file, info, i)
  {
    (if Recorded(file, info, i) != 0 then base + Recorded(file, info, i) else place) + x
  }

  /** The branch word at file position `at` goes to `x` in section `i`, at every load base and every placement of the
      sections without data. */
  ghost predicate BranchesTo(file: seq<Byte>, info: nat, at: nat, i: nat, x: int)
    requires HasInfo(file, info, i) && at + 4 <= |file|
  {
    forall base, place :: BranchTarget(Get32(file, at), base + at) == Wrap32(AddressIn(file, info, i, x, base, place))
  }

  /** The branch `ref` of the module is linked in the file exactly when it is relative, the section it is aimed at has
      data in the file, and the distance between the two places of the file fits. */
  ghost predicate LinkedIfPossible(file: seq<Byte>, info: nat, env: Env, sections: seq<Section>, ref: Ref)
    requires |sections| == |env.locs| && SiteExists(env, ref) && InData(sections, ref)
  {
    var goal, x := GoalSection(env, ref), GoalOffset(env, ref);
    && HasInfo(file, info, ref.section) && HasInfo(file, info, goal)
    && var at, to := Recorded(file, info, ref.section) + ref.pos, Recorded(file, info, goal) + x;
       && at + 4 <= |file|
       && (BranchesTo(file, info, at, goal, x)
           <==> !IsAbsolute(WordAt(sections, ref)) && Stored(sections[goal]) && InBranchRange(Nearest(to - at)))
  }

  /** The section table records the place of every section's data, and 0 for a section without data. */
  lemma RecordedIsLoc(p: Plan, start: nat, i: nat)
    requires Writable(p) && LaidOut(p, start) && i < |p.sections|
    ensures HasInfo(FileBytes(p), p.header.sectionInfoOffset, i)
    ensures Recorded(FileBytes(p), p.header.sectionInfoOffset, i) == p.locs[i]
    ensures p.locs[i] != 0 <==> Stored(p.sections[i])
  {
    FrontHolds(p, start);
    StoredLocs(p.sections, start);
    InfoRecords(FileBytes(p), p.sections, p.locs, p.header.sectionInfoOffset, i);
  }

  lemma InfoRecords(file: seq<Byte>, sections: seq<Section>, locs: seq<nat>, info: nat, i: nat)
    requires InfosFit(sections, locs) && i < |sections| && Holds(file, InfoChunks(sections, locs, info))
    requires Stored(sections[i]) <==> locs[i] != 0
    ensures HasInfo(file, info, i) && Recorded(file, info, i) == locs[i]
  {
    var pos := info + SECTION_INFO_SIZE * i;
    HoldsIndex(file, InfoChunks(sections, locs, info), i);
    InfoRead(file, sections[i], locs[i], pos);
    InfoFlagsRead(sections[i], locs[i]);
  }

  /** Every branch word stands in the file where its section's data does. */
  lemma WordInFile(p: Plan, start: nat, ref: Ref)
    requires Writable(p) && LaidOut(p, start) && InData(p.sections, ref)
    ensures Stored(p.sections[ref.section])
    ensures p.locs[ref.section] + ref.pos + 4 <= |FileBytes(p)|
    ensures Get32(FileBytes(p), p.locs[ref.section] + ref.pos) == WordAt(p.sections, ref)
  {
    var i := ref.section;
    assert SectionValid(p.sections[i]);
    FrontHolds(p, start);
    WordInChunk(FileBytes(p), p.sections, p.locs, i, ref.pos);
  }

  lemma WordInChunk(file: seq<Byte>, sections: seq<Section>, locs: seq<nat>, i: nat, pos: nat)
    requires |locs| == |sections| && i < |sections| && Holds(file, DataChunks(sections, locs)) && Stored(sections[i])
    requires pos + 4 <= |sections[i].data|
    ensures locs[i] + pos + 4 <= |file| && Get32(file, locs[i] + pos) == Get32(sections[i].data, pos)
  {
    var chunks, data := DataChunks(sections, locs), sections[i].data;
    assert chunks[i] == Chunk(locs[i], data);
    HoldsIndex(file, chunks, i);
    AtIndex(file, locs[i], data, pos);
    AtIndex(file, locs[i], data, pos + 1);
    AtIndex(file, locs[i], data, pos + 2);
    AtIndex(file, locs[i], data, pos + 3);
  }

  lemma WrittenBranch(p: Plan, start: nat, env: Env, sections: seq<Section>, ref: Ref)
    requires Writable(p) && LaidOut(p, start) && env.locs == p.locs && SameFrame(p.sections, sections)
    requires SiteExists(env, ref) && InData(sections, ref) && Reaches(env, p.sections, sections, ref)
    ensures LinkedIfPossible(FileBytes(p), p.header.sectionInfoOffset, env, sections, ref)
  {
    BranchStands(p, start, ref, GoalSection(env, ref));
    LinkedAsReached(FileBytes(p), p.header.sectionInfoOffset, env, p.sections, sections, ref);
  }

  /** What the file holds of a branch and of the section it is aimed at. */
  lemma BranchStands(p: Plan, start: nat, ref: Ref, goal: nat)
    requires Writable(p) && LaidOut(p, start) && InData(p.sections, ref) && goal < |p.sections|
    ensures var file, info := FileBytes(p), p.header.sectionInfoOffset;
            && HasInfo(file, info, ref.section) && Recorded(file, info, ref.section) == p.locs[ref.section]
            && HasInfo(file, info, goal) && Recorded(file, info, goal) == p.locs[goal]
            && (p.locs[goal] != 0 <==> Stored(p.sections[goal]))
            && p.locs[ref.section] + ref.pos + 4 <= |file|
            && Get32(file, p.locs[ref.section] + ref.pos) == WordAt(p.sections, ref)
  {
    RecordedIsLoc(p, start, ref.section);
    RecordedIsLoc(p, start, goal);
    WordInFile(p, start, ref);
  }

  lemma LinkedAsReached(file: seq<Byte>, info: nat, env: Env, patched: seq<Section>, sections: seq<Section>, ref: Ref)
    requires |sections| == |env.locs| && SiteExists(env, ref) && SameFrame(patched, sections) && InData(sections, ref)
    requires Reaches(env, patched, sections, ref)
    requires HasInfo(file, info, ref.section) && Recorded(file, info, ref.section) == env.locs[ref.section]
    requires var goal := GoalSection(env, ref);
             && HasInfo(file, info, goal) && Recorded(file, info, goal) == env.locs[goal]
             && (env.locs[goal] != 0 <==> Stored(sections[goal]))
    requires env.locs[ref.section] + ref.pos + 4 <= |file|
    requires Get32(file, env.locs[ref.section] + ref.pos) == WordAt(patched, ref)
    ensures LinkedIfPossible(file, info, env, sections, ref)
  {
    var goal, at := GoalSection(env, ref), env.locs[ref.section] + ref.pos;
    BranchesAsNamed(file, info, at, goal, env, WordAt(patched, ref), ref);
    LinkedAsResolvable(file, info, env, sections, ref, at, goal, WordAt(sections, ref));
  }

  lemma LinkedAsResolvable(file: seq<Byte>, info: nat, env: Env, sections: seq<Section>, ref: Ref, at: nat, goal: nat,
                           word: U32)
    requires |sections| == |env.locs| && SiteExists(env, ref) && InData(sections, ref) && goal == GoalSection(env, ref)
    requires HasInfo(file, info, ref.section) && Recorded(file, info, ref.section) == env.locs[ref.section]
    requires HasInfo(file, info, goal) && Recorded(file, info, goal) == env.locs[goal]
    requires env.locs[goal] != 0 <==> Stored(sections[goal])
    requires at == env.locs[ref.section] + ref.pos && at + 4 <= |file| && word == WordAt(sections, ref)
    requires BranchesTo(file, info, at, goal, GoalOffset(env, ref)) <==> Resolvable(env, word, ref)
    ensures LinkedIfPossible(file, info, env, sections, ref)
  {
    var to := Recorded(file, info, goal) + GoalOffset(env, ref);
    assert to - at == Distance(env, ref);
  }

  /** The address that the section table gives is the one that the branch names. */
  lemma BranchesAsNamed(file: seq<Byte>, info: nat, at: nat, goal: nat, env: Env, w: U32, ref: Ref)
    requires SiteExists(env, ref) && goal == GoalSection(env, ref)
    requires HasInfo(file, info, goal) && Recorded(file, info, goal) == env.locs[goal]
    requires at == env.locs[ref.section] + ref.pos && at + 4 <= |file| && Get32(file, at) == w
    ensures BranchesTo(file, info, at, goal, GoalOffset(env, ref))
       <==> AlwaysGoes(env, w, ref)
  {
    var x := GoalOffset(env, ref);
    if BranchesTo(file, info, at, goal, x) {
      forall base, place ensures GoesTo(env, w, ref, base, place) {
        assert BranchTarget(Get32(file, at), base + at) == Wrap32(AddressIn(file, info, goal, x, base, place));
      }
    }
    if AlwaysGoes(env, w, ref) {
      forall base, place
        ensures BranchTarget(Get32(file, at), base + at) == Wrap32(AddressIn(file, info, goal, x, base, place))
      {
        assert GoesTo(env, w, ref, base, place);
      }
    }
  }

  // ----- a whole module -----

  /** What `write` promises for a module whose branch gaps are safe: the written file reads back; every branch that a
      table names is linked in the file, at every load base, exactly when it can be; and the tables of the file
      relocate exactly the remaining references, where they always were. */
  lemma WrittenModuleMeaning(h: Header, sections: seq<Section>, tables: seq<ModuleTable>, p: Plan, env: Env,
                             alignment: nat, bssAlign: nat)
    requires SectionsValid(sections) && Preparable(h, sections, tables) && Distinct(Keys(tables))
    requires env == EnvOf(h, SectionLocs(sections, SectionsStart(h, sections)))
    requires GapSafeTables(env, tables) && GoodSites(env, sections, Branches(AllRefs(tables)))
    requires forall i :: 0 <= i < |tables| ==> Terminated(tables[i].table)
    requires IsPlan(p, h, sections, tables) && FieldsFit(p) && TablesWillFit(h.index, tables)
    ensures Writable(p)
    ensures ParseRel(FileBytes(p), alignment, bssAlign)
         == Some(Image(HeaderBack(p.header, alignment, bssAlign), ReadBackAll(p.sections),
                       InOrder(ReadOrder(p), p.tables)))
    ensures Distinct(ReadOrder(p)) && forall m :: m in ReadOrder(p) <==> m in Keys(tables)
    ensures forall i :: 0 <= i < |tables| ==>
              ReadRefs(tables[i].mod, TableOf(p.tables, tables[i].mod), 0, 0) == LoadRefs(h.index, tables[i])
    ensures SameFrame(p.sections, sections) && SameOutside(p.sections, sections, Branches(AllRefs(tables)))
    ensures forall i :: 0 <= i < |Branches(AllRefs(tables))| ==>
              LinkedIfPossible(FileBytes(p), p.header.sectionInfoOffset, env, sections, Branches(AllRefs(tables))[i])
  {
    var start, refs := SectionsStart(h, sections), Branches(AllRefs(tables));
    LeftTablesFit(env, tables);
    ResolvedBranchesReach(env, tables, sections);
    PlanLaidOut(h, sections, tables, p, start);
    OrderMembers(Keys(tables), h.index);
    ImportOrderSet(Keys(tables), h.index);
    ImportOrderDistinct(Keys(tables), h.index);
    LeftTerminated(env, tables, p.order);
    RelRoundTrip(p, start, alignment, bssAlign);
    forall i | 0 <= i < |tables|
      ensures ReadRefs(tables[i].mod, TableOf(p.tables, tables[i].mod), 0, 0) == LoadRefs(h.index, tables[i])
    {
      LeftTableRefs(env, tables, i);
      TableOfIndex(p.tables, i);
    }
    forall i | 0 <= i < |refs|
      ensures LinkedIfPossible(FileBytes(p), p.header.sectionInfoOffset, env, sections, refs[i])
    {
      WrittenBranch(p, start, env, sections, refs[i]);
    }
  }

  // ----- a branch into a section without data -----

  function BssTable(): seq<Reloc> {
    [SectionChange(0), Reloc(0, R_PPC_REL24, 1, 0), Stop]
  }

  /** Module 1: four bytes of code, one branch, and a bss section that the branch is aimed at. */
  predicate IsBssModule(h: Header, sections: seq<Section>, tables: seq<ModuleTable>) {
    && h.index == 1
    && |sections| == 2 && SectionsValid(sections)
    && !sections[0].isBss && |sections[0].data| == 4 && sections[1].isBss
    && tables == [ModuleTable(1, BssTable())]
  }

  const BSS_BRANCH: Ref := Ref(0, 0, R_PPC_REL24, 1, 1, 0)

  lemma BssTableRefs(env: Env)
    requires env.index == 1 && |env.locs| == 2
    ensures ReadRefs(1, BssTable(), 0, 0) == [BSS_BRANCH]
    ensures GapSafe(BssTable()) && SitesKnown(env, 1, BssTable(), 0) && RepairedFits(BssTable())
  {
    var table := BssTable();
    var t1, t2 := table[1..], [Stop];
    assert t1[1..] == t2 && t2[1..] == [];
    assert ReadRefs(1, t2, 0, 0) == [];
    assert ReadRefs(1, t1, 0, 0) == [BSS_BRANCH];
    assert SitesKnown(env, 1, t2, 0) && SitesKnown(env, 1, t1, 0);
    assert RunBefore(table, 1) == 0 && RunBefore(table, 2) == 0;
  }

  lemma BssModuleFits(h: Header, sections: seq<Section>, tables: seq<ModuleTable>, env: Env)
    requires IsBssModule(h, sections, tables) && env.index == 1 && |env.locs| == 2
    ensures AllScannable(env, tables) && AllSitesKnown(env, tables) && 1 in Keys(tables)
    ensures Distinct(Keys(tables)) && TablesWillFit(1, tables) && Branches(AllRefs(tables)) == [BSS_BRANCH]
    ensures GapSafeTables(env, tables) && GoodSites(env, sections, [BSS_BRANCH])
  {
    BssTableRefs(env);
    assert tables[1..] == [] && AllRefs(tables[1..]) == [];
    assert AllRefs(tables) == [BSS_BRANCH];
    assert Branches([BSS_BRANCH][1..]) == [];
    assert Keys(tables)[0] == 1 && TableOf(tables, 1) == BssTable();
  }

  /** The branch is resolved and its entry deleted, but wherever the written module is loaded the branch does not
      follow the placement of the bss section. */
  lemma BssTargetExample(h: Header, sections: seq<Section>, tables: seq<ModuleTable>, p: Plan)
    requires IsBssModule(h, sections, tables)
    ensures Preparable(h, sections, tables)
    ensures IsPlan(p, h, sections, tables) && FieldsFit(p) ==>
              Writable(p) && ReadRefs(1, TableOf(p.tables, 1), 0, 0) == [] && BssBranchMisses(p)
  {
    var env := EnvOf(h, SectionLocs(sections, SectionsStart(h, sections)));
    BssModuleFits(h, sections, tables, env);
    if IsPlan(p, h, sections, tables) && FieldsFit(p) {
      BssPlanned(h, sections, tables, p, env);
    }
  }

  lemma BssPlanned(h: Header, sections: seq<Section>, tables: seq<ModuleTable>, p: Plan, env: Env)
    requires IsBssModule(h, sections, tables) && Preparable(h, sections, tables)
    requires env == EnvOf(h, SectionLocs(sections, SectionsStart(h, sections)))
    requires IsPlan(p, h, sections, tables) && FieldsFit(p)
    ensures Writable(p) && ReadRefs(1, TableOf(p.tables, 1), 0, 0) == [] && BssBranchMisses(p)
  {
    BssModuleFits(h, sections, tables, env);
    assert [BSS_BRANCH][0] == BSS_BRANCH;
    OneBranchMeaning(h, sections, tables, p, env, BSS_BRANCH);
    BssLinked(p, env, sections, BSS_BRANCH);
    BssLoads(env, tables[0]);
  }

  /** The meaning of a written module with one table and one branch. */
  lemma OneBranchMeaning(h: Header, sections: seq<Section>, tables: seq<ModuleTable>, p: Plan, env: Env, ref: Ref)
    requires SectionsValid(sections) && Preparable(h, sections, tables) && |tables| == 1 && Terminated(tables[0].table)
    requires env == EnvOf(h, SectionLocs(sections, SectionsStart(h, sections)))
    requires GapSafeTables(env, tables) && Branches(AllRefs(tables)) == [ref] && GoodSites(env, sections, [ref])
    requires SiteExists(env, ref) && InData(sections, ref)
    requires IsPlan(p, h, sections, tables) && FieldsFit(p) && TablesWillFit(h.index, tables)
    ensures Writable(p)
    ensures ReadRefs(tables[0].mod, TableOf(p.tables, tables[0].mod), 0, 0) == LoadRefs(h.index, tables[0])
    ensures LinkedIfPossible(FileBytes(p), p.header.sectionInfoOffset, env, sections, ref)
  {
    WrittenModuleMeaning(h, sections, tables, p, env, 4, 8);
    assert Branches(AllRefs(tables))[0] == ref;
  }

  ghost predicate BssBranchMisses(p: Plan)
    requires Writable(p)
  {
    var file, info := FileBytes(p), p.header.sectionInfoOffset;
    && HasInfo(file, info, 0) && HasInfo(file, info, 1)
    && Recorded(file, info, 0) + 4 <= |file|
    && !BranchesTo(file, info, Recorded(file, info, 0), 1, 0)
  }

  lemma BssLinked(p: Plan, env: Env, sections: seq<Section>, ref: Ref)
    requires Writable(p) && env.index == 1 && |env.locs| == |sections| == 2 && sections[1].isBss
    requires InData(sections, ref) && ref == BSS_BRANCH
    requires LinkedIfPossible(FileBytes(p), p.header.sectionInfoOffset, env, sections, ref)
    ensures BssBranchMisses(p)
  {
  }

  lemma BssLoads(env: Env, t: ModuleTable)
    requires env.index == 1 && |env.locs| == 2 && t == ModuleTable(1, BssTable())
    ensures LoadRefs(1, t) == []
  {
    BssTableRefs(env);
    assert [BSS_BRANCH][1..] == [];
  }
}
