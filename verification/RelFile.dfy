/** Class Rel of tools/relfile.py: branch resolution, writing and reading of a REL module. */
module RelFile {
  import opened Bits
  import opened Bytes
  import opened Chunks
  import opened RelBranch
  import opened RelFormat
  import opened RelLayout
  import opened RelPatch
  import opened RelRepair
  import opened RelScan
  import opened RelTable
  import opened RelTypes
  import opened Wrappers

  /** A binary file that is written at a cursor. */
  class BinaryFile {
    var bytes: seq<Byte>
    var cursor: nat

    constructor ()
      ensures bytes == [] && cursor == 0
    {
      bytes, cursor := [], 0;
    }

    method Seek(pos: nat)
      modifies this`cursor
      ensures cursor == pos
    {
      cursor := pos;
    }

    method Write(chunk: seq<Byte>)
      modifies this
      ensures bytes == WriteAt(old(bytes), old(cursor), chunk) && cursor == old(cursor) + |chunk|
    {
      bytes := WriteAt(bytes, cursor, chunk);
      cursor := cursor + |chunk|;
    }
  }

  function EnvOf(h: Header, locs: seq<nat>): Env {
    Env(h.index, locs, h.unresolvedSection, h.unresolved)
  }

  /** Writing finds all that it looks up: an entry behind every own branch, existing sections for every branch, and for
      a version 3 module a table of its own. */
  predicate Preparable(h: Header, sections: seq<Section>, tables: seq<ModuleTable>) {
    && (h.version >= 3 ==> h.index in Keys(tables))
    && var env := EnvOf(h, SectionLocs(sections, SectionsStart(h, sections)));
       AllScannable(env, tables) && AllSitesKnown(env, tables)
  }

  /** The header fields that `write` fills in: the import table stands at `pos`, the relocation tables behind it. */
  function LaidHeader(h: Header, pos: nat, count: nat): Header {
    h.(sectionInfoOffset := HeaderSize(h.version), impOffset := pos, impSize := IMPORT_SIZE * count,
       relOffset := pos + IMPORT_SIZE * count)
  }

  /** The plan that puts the tables of a module behind section data that ends at `pos`. */
  predicate IsLayout(p: Plan, h: Header, locs: seq<nat>, pos: nat)
    requires h.version >= 3 ==> h.index in Keys(p.tables)
  {
    OrderMembers(Keys(p.tables), h.index);
    var places := LocMap(p.order, TableLocs(p.order, p.tables, p.header.relOffset));
    && p.locs == locs
    && p.order == ModuleOrder(Keys(p.tables), h.index)
    && p.tableLocs == TablePlaces(p.order, p.tables, p.header.relOffset)
    && p.header == LaidHeader(h, pos, |p.tables|).(fixSize := if h.version >= 3 then places[h.index] else h.fixSize)
  }

  /** Everything that `write` decides: the resolved module and its layout. */
  predicate IsPlan(p: Plan, h: Header, sections: seq<Section>, tables: seq<ModuleTable>)
    requires Preparable(h, sections, tables)
  {
    var start := SectionsStart(h, sections);
    var locs := SectionLocs(sections, start);
    var env := EnvOf(h, locs);
    && p.sections == Resolved(env, sections, tables)
    && p.tables == LeftTables(env, tables)
    && Keys(p.tables) == Keys(tables)
    && IsLayout(p, h, locs, SectionsEnd(sections, start))
  }

  /** The scan has dealt with `done` and stands before `rest` at `pos` of `sec`. */
  datatype Progress = Progress(done: seq<Reloc>, rest: seq<Reloc>, pos: nat, sec: nat, sections: seq<Section>)

  /** What the scan still has to do leads to the outcome `all` for the sections it began with. */
  ghost predicate OnTrack(env: Env, start: seq<Section>, all: Outcome, mod: nat, s: Progress) {
    && |s.sections| == |start| == |env.locs|
    && SitesExist(env, Branches(all.refs))
    && Scannable(env, mod, s.rest)
    && var todo := Scan(env, mod, s.rest, s.pos, s.sec);
       all.table == s.done + todo.table
       && SitesExist(env, Branches(todo.refs))
       && ApplyPatches(env, s.sections, Branches(todo.refs)) == ApplyPatches(env, start, Branches(all.refs))
  }

  function BranchRef(mod: nat, r: Reloc, pos: nat, sec: nat): Ref {
    Ref(sec, pos + r.offset, r.kind, mod, r.section, r.addend)
  }

  /** The next step can be taken. */
  predicate CanStep(env: Env, mod: nat, s: Progress) {
    && s.rest != [] && |s.sections| == |env.locs|
    && (s.rest[0].kind == R_PPC_REL24 ==>
          SiteExists(env, BranchRef(mod, s.rest[0], s.pos, s.sec)) && (mod == env.index ==> |s.rest| >= 2))
  }

  /** One step: a branch is patched, and deleted in the own module; every other entry is kept. */
  function Step(env: Env, mod: nat, s: Progress): Progress
    requires CanStep(env, mod, s)
  {
    var r := s.rest[0];
    if r.kind == R_RVL_SECT then Progress(s.done + [r], s.rest[1..], r.offset, r.section, s.sections)
    else if r.kind != R_PPC_REL24 then Progress(s.done + [r], s.rest[1..], s.pos + r.offset, s.sec, s.sections)
    else
      var patched := Patch(env, s.sections, BranchRef(mod, r, s.pos, s.sec));
      if mod == env.index then Progress(s.done, AfterDelete(s.rest), s.pos, s.sec, patched)
      else Progress(s.done + [r], s.rest[1..], s.pos + r.offset, s.sec, patched)
  }

  /** What the scan does at a branch. */
  lemma ScanBranch(env: Env, mod: nat, table: seq<Reloc>, pos: nat, sec: nat)
    requires Scannable(env, mod, table) && table != [] && table[0].kind == R_PPC_REL24
    ensures mod == env.index ==> |table| >= 2 && Scannable(env, mod, AfterDelete(table))
    ensures var r, todo := table[0], Scan(env, mod, table, pos, sec);
            var next := if mod == env.index then Scan(env, mod, AfterDelete(table), pos, sec)
                        else Scan(env, mod, table[1..], pos + r.offset, sec);
            && Branches(todo.refs) == [BranchRef(mod, r, pos, sec)] + Branches(next.refs)
            && todo.table == (if mod == env.index then [] else [r]) + next.table
  {
    var r, todo := table[0], Scan(env, mod, table, pos, sec);
    var next := if mod == env.index then Scan(env, mod, AfterDelete(table), pos, sec)
                else Scan(env, mod, table[1..], pos + r.offset, sec);
    assert todo.refs[1..] == next.refs && todo.refs[0] == BranchRef(mod, r, pos, sec);
    FirstBranch(todo.refs);
  }

  lemma StepBranch(env: Env, start: seq<Section>, all: Outcome, mod: nat, s: Progress)
    requires OnTrack(env, start, all, mod, s) && s.rest != [] && s.rest[0].kind == R_PPC_REL24
    ensures CanStep(env, mod, s) && OnTrack(env, start, all, mod, Step(env, mod, s))
  {
    var todo, ref := Scan(env, mod, s.rest, s.pos, s.sec), BranchRef(mod, s.rest[0], s.pos, s.sec);
    ScanBranch(env, mod, s.rest, s.pos, s.sec);
    FirstSite(env, Branches(todo.refs));
    var n := Step(env, mod, s);
    assert Branches(todo.refs)[0] == ref;
    if mod == env.index {
      assert n.rest == AfterDelete(s.rest) && n.pos == s.pos && n.sec == s.sec && n.done == s.done;
      var left := Scan(env, mod, n.rest, n.pos, n.sec).table;
      assert s.done + ([] + left) == n.done + left;
    } else {
      assert n.rest == s.rest[1..] && n.pos == s.pos + s.rest[0].offset && n.sec == s.sec;
      MoveOne(s.done, s.rest[0], Scan(env, mod, n.rest, n.pos, n.sec).table);
    }
    PatchMoves(env, start, all, mod, s, n, ref);
  }

  lemma PatchMoves(env: Env, start: seq<Section>, all: Outcome, mod: nat, s: Progress, n: Progress, ref: Ref)
    requires OnTrack(env, start, all, mod, s) && SiteExists(env, ref) && Scannable(env, mod, n.rest)
    requires n.sections == Patch(env, s.sections, ref)
    requires var todo, next := Scan(env, mod, s.rest, s.pos, s.sec), Scan(env, mod, n.rest, n.pos, n.sec);
             Branches(todo.refs) == [ref] + Branches(next.refs) && s.done + todo.table == n.done + next.table
    ensures OnTrack(env, start, all, mod, n)
  {
    var next := Branches(Scan(env, mod, n.rest, n.pos, n.sec).refs);
    assert ([ref] + next)[1..] == next;
  }

  lemma StepOther(env: Env, start: seq<Section>, all: Outcome, mod: nat, s: Progress)
    requires OnTrack(env, start, all, mod, s) && s.rest != [] && s.rest[0].kind != R_PPC_REL24
    ensures CanStep(env, mod, s) && OnTrack(env, start, all, mod, Step(env, mod, s))
  {
    ScanOther(env, mod, s.rest, s.pos, s.sec);
    TrackMoves(env, start, all, mod, s, Step(env, mod, s));
  }

  lemma TrackMoves(env: Env, start: seq<Section>, all: Outcome, mod: nat, s: Progress, n: Progress)
    requires OnTrack(env, start, all, mod, s) && s.rest != []
    requires n.done == s.done + [s.rest[0]] && n.sections == s.sections && Scannable(env, mod, n.rest)
    requires var todo, next := Scan(env, mod, s.rest, s.pos, s.sec), Scan(env, mod, n.rest, n.pos, n.sec);
             todo.table == [s.rest[0]] + next.table && Branches(todo.refs) == Branches(next.refs)
    ensures OnTrack(env, start, all, mod, n)
  {
    MoveOne(s.done, s.rest[0], Scan(env, mod, n.rest, n.pos, n.sec).table);
  }

  lemma MoveOne(a: seq<Reloc>, r: Reloc, b: seq<Reloc>)
    ensures a + ([r] + b) == (a + [r]) + b
  {
  }

  lemma ScanOther(env: Env, mod: nat, table: seq<Reloc>, pos: nat, sec: nat)
    requires Scannable(env, mod, table) && table != [] && table[0].kind != R_PPC_REL24
    ensures var r, before := table[0], Scan(env, mod, table, pos, sec);
            var after := if r.kind == R_RVL_SECT then Scan(env, mod, table[1..], r.offset, r.section)
                         else Scan(env, mod, table[1..], pos + r.offset, sec);
            before.table == [r] + after.table && Branches(before.refs) == Branches(after.refs)
  {
    var r, before := table[0], Scan(env, mod, table, pos, sec);
    var after := if r.kind == R_RVL_SECT then Scan(env, mod, table[1..], r.offset, r.section)
                 else Scan(env, mod, table[1..], pos + r.offset, sec);
    if IsRef(r) {
      assert before.refs[1..] == after.refs;
      assert Branches(before.refs) == Branches(before.refs[1..]);
    } else {
      assert before.refs == after.refs;
    }
  }

  /** Every step keeps the scan on track. */
  lemma StepOnTrack(env: Env, start: seq<Section>, all: Outcome, mod: nat, s: Progress)
    requires OnTrack(env, start, all, mod, s) && s.rest != []
    ensures CanStep(env, mod, s) && OnTrack(env, start, all, mod, Step(env, mod, s))
  {
    if s.rest[0].kind == R_PPC_REL24 {
      StepBranch(env, start, all, mod, s);
    } else {
      StepOther(env, start, all, mod, s);
    }
  }

  lemma TrackBegin(env: Env, mod: nat, table: seq<Reloc>, sections: seq<Section>)
    requires |sections| == |env.locs| && Known(env, mod, table, 0)
    ensures OnTrack(env, sections, Scan(env, mod, table, 0, 0), mod, Progress([], table, 0, 0, sections))
  {
    var all := Scan(env, mod, table, 0, 0);
    ScanSites(env, mod, table, 0, 0);
    assert [] + all.table == all.table;
  }

  /** Where nothing is missing the next step can be taken. */
  lemma KnownCanStep(env: Env, mod: nat, s: Progress)
    requires s.rest != [] && |s.sections| == |env.locs| && Known(env, mod, s.rest, s.sec)
    ensures CanStep(env, mod, s)
  {
  }

  /** A step that can be taken finds nothing missing that was there, and nothing there that was missing. */
  lemma KnownStep(env: Env, mod: nat, s: Progress)
    requires CanStep(env, mod, s)
    ensures |Step(env, mod, s).sections| == |env.locs|
    ensures var n := Step(env, mod, s);
            Known(env, mod, s.rest, s.sec) <==> Known(env, mod, n.rest, n.sec)
  {
    if s.rest[0].kind == R_PPC_REL24 && mod == env.index {
      KnownAfterDelete(env, mod, s.rest, s.sec);
    } else if |s.rest| > 1 {
      assert s.rest[1..][|s.rest| - 2] == s.rest[|s.rest| - 1];
    }
  }

  lemma TrackEnd(env: Env, start: seq<Section>, all: Outcome, mod: nat, s: Progress)
    requires OnTrack(env, start, all, mod, s) && s.rest == []
    ensures all.table == s.done == s.done + s.rest && s.sections == ApplyPatches(env, start, Branches(all.refs))
  {
    assert s.done + [] == s.done;
  }

  lemma FirstSite(env: Env, refs: seq<Ref>)
    requires SitesExist(env, refs) && refs != []
    ensures SiteExists(env, refs[0]) && SitesExist(env, refs[1..])
  {
  }

  lemma FirstBranch(refs: seq<Ref>)
    requires refs != [] && refs[0].kind == R_PPC_REL24
    ensures Branches(refs) == [refs[0]] + Branches(refs[1..])
    ensures Branches(refs)[0] == refs[0] && Branches(refs)[1..] == Branches(refs[1..])
  {
  }

  /** The tables before `i` are dealt with; what is left to patch leads to the patches of all tables. */
  ghost predicate AllOnTrack(env: Env, start: seq<Section>, tables: seq<ModuleTable>, i: nat, sections: seq<Section>) {
    && i <= |tables| && |sections| == |start| == |env.locs|
    && AllScannable(env, tables) && SitesExist(env, SeenBranches(env, tables))
    && SitesExist(env, SeenBranches(env, tables[i..]))
    && ApplyPatches(env, sections, SeenBranches(env, tables[i..]))
    == ApplyPatches(env, start, SeenBranches(env, tables))
  }

  lemma TablesStep(env: Env, start: seq<Section>, tables: seq<ModuleTable>, i: nat, sections: seq<Section>)
    requires AllOnTrack(env, start, tables, i, sections) && i < |tables|
    ensures Scannable(env, tables[i].mod, tables[i].table)
    ensures var here := Branches(Scan(env, tables[i].mod, tables[i].table, 0, 0).refs);
            SitesExist(env, here) && AllOnTrack(env, start, tables, i + 1, ApplyPatches(env, sections, here))
  {
    var t, rest := tables[i], tables[i + 1..];
    assert tables[i..][0] == t && tables[i..][1..] == rest;
    var here := Branches(Scan(env, t.mod, t.table, 0, 0).refs);
    assert SeenBranches(env, tables[i..]) == here + SeenBranches(env, rest);
    SitesConcat(env, here, SeenBranches(env, rest));
    ApplyPatchesConcat(env, sections, here, SeenBranches(env, rest));
  }

  /** The tables before `i` found nothing missing and are what the scan leaves; the others are untouched. */
  ghost predicate Relocated(env: Env, tables: seq<ModuleTable>, now: seq<ModuleTable>, i: nat) {
    && i <= |tables| == |now|
    && (forall j :: 0 <= j < i ==>
          Known(env, tables[j].mod, tables[j].table, 0) && now[j] == LeftTable(env, tables[j]))
    && (forall j :: i <= j < |tables| ==> now[j] == tables[j])
  }

  lemma RelocatedNext(env: Env, tables: seq<ModuleTable>, before: seq<ModuleTable>, now: seq<ModuleTable>, i: nat)
    requires Relocated(env, tables, before, i) && i < |tables|
    requires Known(env, tables[i].mod, tables[i].table, 0) && now == before[i := LeftTable(env, tables[i])]
    ensures Relocated(env, tables, now, i + 1)
  {
  }

  lemma AllRelocated(env: Env, tables: seq<ModuleTable>, now: seq<ModuleTable>)
    requires Relocated(env, tables, now, |tables|)
    ensures AllScannable(env, tables) && AllSitesKnown(env, tables) && now == LeftTables(env, tables)
  {
    assert AllScannable(env, tables) && AllSitesKnown(env, tables);
  }

  lemma SectionLocsStep(sections: seq<Section>, i: nat, pos: nat)
    requires i < |sections|
    ensures var sec, all, rest := sections[i], sections[i..], sections[i + 1..];
            if Stored(sec) then
              var p := Align(pos, sec.alignment);
              && SectionLocs(all, pos) == [p] + SectionLocs(rest, p + sec.secLen)
              && SectionsEnd(all, pos) == SectionsEnd(rest, p + sec.secLen)
            else
              SectionLocs(all, pos) == [0] + SectionLocs(rest, pos) && SectionsEnd(all, pos) == SectionsEnd(rest, pos)
  {
    assert sections[i..][0] == sections[i] && sections[i..][1..] == sections[i + 1..];
  }

  lemma TableLocsStep(order: seq<nat>, tables: seq<ModuleTable>, pos: nat, p: nat, next: nat)
    requires order != [] && p == Align(pos, 4) && next == p + |TableOf(tables, order[0])| * RELOC_SIZE
    ensures TableLocs(order, tables, pos) == [p] + TableLocs(order[1..], tables, next)
  {
  }

  lemma PlaceStep(order: seq<nat>, tables: seq<ModuleTable>, all: seq<nat>, i: nat, pos: nat, p: nat, next: nat)
    requires |all| == |order| && i < |order| && all[i..] == TableLocs(order[i..], tables, pos)
    requires p == Align(pos, 4) && next == p + |TableOf(tables, order[i])| * RELOC_SIZE
    ensures all[i] == p && all[i + 1..] == TableLocs(order[i + 1..], tables, next)
    ensures LocMap(order[..i + 1], all[..i + 1]) == LocMap(order[..i], all[..i])[order[i] := all[i]]
  {
    var rest := order[i..];
    assert rest[0] == order[i] && rest[1..] == order[i + 1..];
    TableLocsStep(rest, tables, pos, p, next);
    assert all[i] == all[i..][0] && all[i + 1..] == all[i..][1..];
    LocMapStep(order, all, i);
  }

  lemma LocMapStep(order: seq<nat>, all: seq<nat>, i: nat)
    requires |all| == |order| && i < |order|
    ensures LocMap(order[..i + 1], all[..i + 1]) == LocMap(order[..i], all[..i])[order[i] := all[i]]
  {
    assert order[..i + 1][..i] == order[..i] && all[..i + 1][..i] == all[..i];
  }

  lemma MoveFirst(done: seq<nat>, all: seq<nat>, rest: seq<nat>, done': seq<nat>)
    requires all != [] && all == [all[0]] + rest && done' == done + [all[0]]
    ensures done' + rest == done + all
  {
  }

  class Rel {
    var header: Header
    var sections: seq<Section>
    var relocations: seq<ModuleTable>

    constructor (id: nat, version: nat, alignment: nat, bssAlign: nat, pathOffset: nat, pathSize: nat)
      ensures header == Header(id, if version < 4 then version else 3, 0, pathOffset, pathSize, 0, 0, 0, 0,
                               0, 0, 0, 0, 0, 0, alignment, bssAlign, 0)
      ensures sections == [] && relocations == []
    {
      header := Header(id, if version < 4 then version else 3, 0, pathOffset, pathSize, 0, 0, 0, 0,
                       0, 0, 0, 0, 0, 0, alignment, bssAlign, 0);
      sections, relocations := [], [];
    }

    // ----- branch resolution -----

    /** Removing the branch at `idx` and adding its gap to the entry that moves up, unless that is a marker. */
    method DeleteEntry(table: seq<Reloc>, idx: nat, ghost done: seq<Reloc>, ghost rest: seq<Reloc>)
      returns (shorter: seq<Reloc>)
      requires table == done + rest && |done| == idx && |rest| >= 2
      ensures shorter == done + AfterDelete(rest)
    {
      shorter := table[..idx] + table[idx + 1..];
      if shorter[idx].kind < R_RVL_NONE {
        shorter := shorter[idx := shorter[idx].(offset := shorter[idx].offset + table[idx].offset)];
      }
    }

    /** Pointing one branch to its target in the own module, or to `_unresolved`. */
    method PatchBranch(mod: nat, reloc: Reloc, currPos: nat, currSection: nat, locs: seq<nat>)
      requires |locs| == |sections|
      requires SiteExists(EnvOf(header, locs), Ref(currSection, currPos, reloc.kind, mod, reloc.section, reloc.addend))
      modifies this`sections
      ensures sections == Patch(EnvOf(header, locs), old(sections),
                                Ref(currSection, currPos, reloc.kind, mod, reloc.section, reloc.addend))
    {
      var goalAddr := if mod == header.index then locs[reloc.section] + reloc.addend
                      else locs[header.unresolvedSection] + header.unresolved;
      var ownPos := locs[currSection] + currPos;
      var offset := Wrap32(goalAddr - ownPos);
      assert offset == Wrap32(Distance(EnvOf(header, locs),
                                       Ref(currSection, currPos, reloc.kind, mod, reloc.section, reloc.addend)));
      var s := sections[currSection];
      sections := sections[currSection := s.(data := PatchData(s.data, currPos, offset))];
    }

    /** One round of the loop over a relocation table, for the entry at `idx`. */
    method RelocateEntry(mod: nat, table: seq<Reloc>, idx: nat, pos: nat, sec: nat, locs: seq<nat>, ghost s: Progress)
      returns (table': seq<Reloc>, idx': nat, pos': nat, sec': nat, ghost n: Progress)
      requires |locs| == |sections| && CanStep(EnvOf(header, locs), mod, s)
      requires table == s.done + s.rest && idx == |s.done| && pos == s.pos && sec == s.sec && sections == s.sections
      modifies this`sections
      ensures n == Step(EnvOf(header, locs), mod, s)
      ensures table' == n.done + n.rest && idx' == |n.done| && pos' == n.pos && sec' == n.sec && sections == n.sections
      ensures |table'| - idx' < |table| - idx
    {
      n := Step(EnvOf(header, locs), mod, s);
      table', idx', pos', sec' := table, idx + 1, pos, sec;
      var reloc := table[idx];
      assert reloc == s.rest[0];
      if reloc.kind == R_RVL_SECT {
        pos' := 0;
        sec' := reloc.section;
      }
      pos' := pos' + reloc.offset;
      if reloc.kind == R_PPC_REL24 {
        PatchBranch(mod, reloc, pos', sec', locs);
        if mod == header.index {
          pos' := pos' - reloc.offset;
          table' := DeleteEntry(table, idx, s.done, s.rest);
          idx' := idx;
        }
      }
    }

    /** The loop over one relocation table in `_try_relocate_rel24`; it fails where a section or the entry behind a
        deleted branch is missing. */
    method RelocateTable(i: nat, locs: seq<nat>) returns (ok: bool)
      requires i < |relocations| && |locs| == |sections|
      modifies this`sections, this`relocations
      ensures ok <==> Known(EnvOf(header, locs), old(relocations)[i].mod, old(relocations)[i].table, 0)
      ensures ok ==>
                && var env, t := EnvOf(header, locs), old(relocations)[i];
                   sections == ResolvedBy(env, old(sections), t.mod, t.table)
                   && relocations == old(relocations)[i := LeftTable(env, t)]
    {
      ghost var env, start := EnvOf(header, locs), sections;
      var mod, table := relocations[i].mod, relocations[i].table;
      ghost var known, first := Known(env, mod, table, 0), table;
      ghost var all := if known then Scan(env, mod, table, 0, 0) else Outcome([], []);
      var currPos: nat, currSection: nat, idx: nat := 0, 0, 0;
      ghost var s := Progress([], table, 0, 0, sections);
      if known { TrackBegin(env, mod, table, sections); }
      while idx < |table|
        invariant table == s.done + s.rest && idx == |s.done|
        invariant currPos == s.pos && currSection == s.sec && sections == s.sections && |sections| == |locs|
        invariant relocations == old(relocations) && (known <==> Known(env, mod, s.rest, s.sec))
        invariant known ==> OnTrack(env, start, all, mod, s)
        decreases |table| - idx
      {
        assert table[idx] == s.rest[0];
        if known { KnownCanStep(env, mod, s); }
        if !CanRelocate(mod, table, idx, currSection, locs) {
          return false;
        }
        KnownStep(env, mod, s);
        if known { StepOnTrack(env, start, all, mod, s); }
        table, idx, currPos, currSection, s := RelocateEntry(mod, table, idx, currPos, currSection, locs, s);
      }
      assert s.rest == [];
      TrackEnd(env, start, all, mod, s);
      assert table == s.done;
      relocations := relocations[i := ModuleTable(mod, table)];
      ok := true;
    }

    /** The entry at `idx` finds all that it looks up. */
    predicate CanRelocate(mod: nat, table: seq<Reloc>, idx: nat, currSection: nat, locs: seq<nat>)
      requires idx < |table|
      reads this`header
    {
      table[idx].kind == R_PPC_REL24 ==>
        && currSection < |locs|
        && (if mod == header.index then table[idx].section < |locs| && idx + 1 < |table|
            else header.unresolvedSection < |locs|)
    }

    /** `_try_relocate_rel24`: it fails where something is missing; else afterwards the sections are patched for every
        branch the scan saw, in order, and the tables are the ones the scan leaves. */
    method TryRelocateRel24(locs: seq<nat>) returns (ok: bool)
      requires |locs| == |sections|
      modifies this`sections, this`relocations
      ensures ok <==> AllScannable(EnvOf(header, locs), old(relocations))
                      && AllSitesKnown(EnvOf(header, locs), old(relocations))
      ensures ok ==>
                && sections == Resolved(EnvOf(header, locs), old(sections), old(relocations))
                && relocations == LeftTables(EnvOf(header, locs), old(relocations))
    {
      ghost var env, tables, start := EnvOf(header, locs), relocations, sections;
      ghost var good := AllScannable(env, tables) && AllSitesKnown(env, tables);
      if good { SeenSites(env, tables); }
      assert tables[0..] == tables;
      for i := 0 to |relocations|
        invariant |relocations| == |tables| && |sections| == |locs|
        invariant good ==> AllOnTrack(env, start, tables, i, sections)
        invariant Relocated(env, tables, relocations, i)
      {
        ghost var before := relocations;
        if good { TablesStep(env, start, tables, i, sections); }
        ok := RelocateTable(i, locs);
        if !ok {
          return false;
        }
        RelocatedNext(env, tables, before, relocations, i);
      }
      AllRelocated(env, tables, relocations);
      ok := true;
    }

    // ----- layout -----

    /** `section_data_locs` and the file position behind the section data. */
    method PlaceSections() returns (locs: seq<nat>, pos: nat)
      ensures locs == SectionLocs(sections, SectionsStart(header, sections))
      ensures pos == SectionsEnd(sections, SectionsStart(header, sections))
    {
      ghost var start := SectionsStart(header, sections);
      locs, pos := [], HeaderSize(header.version) + |sections| * SECTION_INFO_SIZE;
      assert sections[0..] == sections;
      for i := 0 to |sections|
        invariant locs + SectionLocs(sections[i..], pos) == SectionLocs(sections, start)
        invariant SectionsEnd(sections[i..], pos) == SectionsEnd(sections, start)
      {
        var sec := sections[i];
        ghost var before, at := locs, pos;
        SectionLocsStep(sections, i, pos);
        if sec.secLen == 0 || sec.isBss {
          locs := locs + [0];
        } else {
          pos := Align(pos, sec.alignment);
          locs := locs + [pos];
          pos := pos + sec.secLen;
        }
        MoveFirst(before, SectionLocs(sections[i..], at), SectionLocs(sections[i + 1..], pos), locs);
      }
    }

    /** `reloc_locs`: the file position of each relocation table. */
    method PlaceTables(order: seq<nat>, start: nat) returns (relocLocs: map<nat, nat>)
      ensures relocLocs == LocMap(order, TableLocs(order, relocations, start))
    {
      ghost var all := TableLocs(order, relocations, start);
      var pos: nat := start;
      relocLocs := map[];
      assert order[0..] == order;
      for i := 0 to |order|
        invariant relocLocs == LocMap(order[..i], all[..i])
        invariant all[i..] == TableLocs(order[i..], relocations, pos)
      {
        ghost var before := pos;
        pos := Align(pos, 4);
        relocLocs := relocLocs[order[i] := pos];
        ghost var p := pos;
        pos := pos + |TableOf(relocations, order[i])| * RELOC_SIZE;
        PlaceStep(order, relocations, all, i, before, p, pos);
      }
      assert order[..|order|] == order && all[..|all|] == all;
    }

    /** Writing the parts of a module that has been laid out. */
    method WriteParts(file: BinaryFile, locs: seq<nat>, order: seq<nat>, relocLocs: map<nat, nat>, ghost p: Plan)
      returns (ok: bool)
      requires file.bytes == [] && file.cursor == 0 && |locs| == |sections|
      requires forall m :: m in order ==> m in relocLocs
      requires p.header == header && p.sections == sections && p.tables == relocations
      requires p.locs == locs && p.order == order && p.tableLocs == Placed(order, relocLocs)
      modifies file
      ensures ok <==> Writable(p)
      ensures ok ==> file.bytes == FileBytes(p)
    {
      ok := WriteHeader(file);
      if !ok { return false; }
      file.Seek(header.sectionInfoOffset);
      ok := WriteInfos(file, locs);
      if !ok { return false; }
      WriteData(file, locs);
      file.Seek(header.impOffset);
      ok := WriteImports(file, order, relocLocs);
      if !ok { return false; }
      ok := WriteTables(file, order, relocations, relocLocs);
      if ok {
        PartsInOrder(p);
      }
    }

    // ----- writing -----

    /** `write`: resolve branches, lay the module out, write it. It succeeds exactly when nothing is missing and every
        field fits its place in the format, the entries of the tables with their repaired gaps; then the file holds the
        chunks of the plan. */
    method Write(file: BinaryFile) returns (ok: bool, ghost p: Plan)
      requires file.bytes == [] && file.cursor == 0
      modifies this, file
      ensures Preparable(old(header), old(sections), old(relocations)) ==>
                IsPlan(p, old(header), old(sections), old(relocations))
                && header == p.header && sections == p.sections && relocations == p.tables
      ensures ok <==> Preparable(old(header), old(sections), old(relocations))
                      && FieldsFit(p) && TablesWillFit(old(header).index, old(relocations))
      ensures ok ==> Writable(p) && file.bytes == FileBytes(p)
    {
      ghost var tables, index := relocations, header.index;
      var locs, pos := PlaceSections();
      ghost var env := EnvOf(header, locs);
      p := Plan(header, [], [], [], [], []);
      var found := TryRelocateRel24(locs);
      if !found {
        return false, p;
      }
      assert Keys(relocations) == Keys(tables);
      if header.version >= 3 && header.index !in Keys(relocations) {
        return false, p;
      }
      LeftTablesFit(env, tables);
      ok, p := WriteLaidOut(file, locs, pos);
    }

    /** The rest of `write`, once branches are resolved and section data is known to end at `pos`. */
    method WriteLaidOut(file: BinaryFile, locs: seq<nat>, pos: nat) returns (ok: bool, ghost p: Plan)
      requires file.bytes == [] && file.cursor == 0 && |locs| == |sections|
      requires header.version >= 3 ==> header.index in Keys(relocations)
      modifies this`header, file
      ensures p.sections == sections && p.tables == relocations && IsLayout(p, old(header), locs, pos)
      ensures header == p.header && (ok <==> Writable(p)) && (ok ==> file.bytes == FileBytes(p))
    {
      header := LaidHeader(header, pos, |relocations|);
      var order := ModuleOrder(Keys(relocations), header.index);
      var relocLocs := PlaceTables(order, header.relOffset);
      if header.version >= 3 {
        header := header.(fixSize := relocLocs[header.index]);
      }
      p := Plan(header, sections, relocations, locs, order, Placed(order, relocLocs));
      ok := WriteParts(file, locs, order, relocLocs, p);
    }

    method WriteHeader(file: BinaryFile) returns (ok: bool)
      requires file.cursor == 0
      modifies file
      ensures ok <==> HeaderFits(header) && Fits32(|sections|)
      ensures ok ==> file.bytes == WriteAll(old(file.bytes), HeaderChunks(header, |sections|))
    {
      if !(HeaderFits(header) && Fits32(|sections|)) {
        return false;
      }
      ghost var f := file.bytes;
      ghost var chunks := [Chunk(0, HeaderBytes(header, |sections|))];
      file.Write(HeaderBytes(header, |sections|));
      WriteAllSnoc(f, [], chunks[0]);
      if header.version >= 2 {
        file.Write(PackWords([header.alignment, header.bssAlign]));
        WriteAllSnoc(f, chunks, Chunk(HEADER_SIZE, PackWords([header.alignment, header.bssAlign])));
        chunks := chunks + [Chunk(HEADER_SIZE, PackWords([header.alignment, header.bssAlign]))];
      }
      if header.version >= 3 {
        file.Write(PackWords([header.fixSize]));
        WriteAllSnoc(f, chunks, Chunk(HEADER_SIZE + 8, PackWords([header.fixSize])));
        chunks := chunks + [Chunk(HEADER_SIZE + 8, PackWords([header.fixSize]))];
      }
      assert chunks == HeaderChunks(header, |sections|);
      return true;
    }

    method WriteInfos(file: BinaryFile, locs: seq<nat>) returns (ok: bool)
      requires |locs| == |sections|
      modifies file
      ensures ok <==> InfosFit(sections, locs)
      ensures ok ==> file.bytes == WriteAll(old(file.bytes), InfoChunks(sections, locs, old(file.cursor)))
    {
      ghost var f, base, fits := file.bytes, file.cursor, InfosFit(sections, locs);
      ghost var chunks := if fits then InfoChunks(sections, locs, base) else [];
      for i := 0 to |sections|
        invariant forall j :: 0 <= j < i ==> InfoFits(sections[j], locs[j])
        invariant file.cursor == base + SECTION_INFO_SIZE * i
        invariant fits ==> file.bytes == WriteAll(f, chunks[..i])
      {
        if !InfoFits(sections[i], locs[i]) {
          return false;
        }
        file.Write(InfoBytes(sections[i], locs[i]));
        if fits { WriteAllPrefix(f, chunks, i); }
      }
      assert chunks[..|chunks|] == chunks;
      return true;
    }

    method WriteData(file: BinaryFile, locs: seq<nat>)
      requires |locs| == |sections|
      modifies file
      ensures file.bytes == WriteAll(old(file.bytes), DataChunks(sections, locs))
    {
      ghost var f, chunks := file.bytes, DataChunks(sections, locs);
      for i := 0 to |sections|
        invariant file.bytes == WriteAll(f, chunks[..i])
      {
        if !(sections[i].secLen == 0 || sections[i].isBss) {
          file.Seek(locs[i]);
          file.Write(sections[i].data);
        }
        WriteAllPrefix(f, chunks, i);
      }
      assert chunks[..|chunks|] == chunks;
    }
    // ----- reading -----

    /** `read`, on a module that has just been constructed. */
    method Read(bytes: seq<Byte>) returns (ok: bool)
      requires sections == [] && relocations == [] && header.fixSize == 0
      modifies this
      ensures ok <==> ParseRel(bytes, old(header.alignment), old(header.bssAlign)).Some?
      ensures ok ==>
        ParseRel(bytes, old(header.alignment), old(header.bssAlign)) == Some(Image(header, sections, relocations))
    {
      var parsed := ParseHeader(bytes, header.alignment, header.bssAlign);
      if parsed.None? {
        return false;
      }
      var count: nat;
      header, count := parsed.value.0, parsed.value.1;
      ok := ReadSections(bytes, count);
      if ok {
        ok := ReadImports(bytes);
      }
    }

    method ReadSections(bytes: seq<Byte>, count: nat) returns (ok: bool)
      requires sections == []
      modifies this`sections
      ensures ok <==> ParseSections(bytes, header.sectionInfoOffset, count).Some?
      ensures ok ==> ParseSections(bytes, header.sectionInfoOffset, count) == Some(sections)
    {
      ghost var all := ParseSections(bytes, header.sectionInfoOffset, count);
      var pos: nat := header.sectionInfoOffset;
      BehindEnds(sections, all);
      for i := 0 to count
        invariant Behind(sections, ParseSections(bytes, pos, count - i)) == all
      {
        if |bytes| < pos + SECTION_INFO_SIZE {
          return false;
        }
        BehindStep(sections, ParseSection(bytes, pos), ParseSections(bytes, pos + SECTION_INFO_SIZE, count - i - 1));
        sections := sections + [ParseSection(bytes, pos)];
        pos := pos + SECTION_INFO_SIZE;
      }
      BehindEnds(sections, all);
      return true;
    }

    method ReadImports(bytes: seq<Byte>) returns (ok: bool)
      requires relocations == []
      modifies this`relocations
      ensures var all := ParseImports(bytes, header.impOffset, (header.impSize + IMPORT_SIZE - 1) / IMPORT_SIZE, {});
              (ok <==> all.Some?) && (ok ==> all == Some(relocations))
    {
      var count := (header.impSize + IMPORT_SIZE - 1) / IMPORT_SIZE;
      ghost var all := ParseImports(bytes, header.impOffset, count, {});
      var pos: nat := header.impOffset;
      var seen: set<nat> := {};
      BehindEnds(relocations, all);
      for i := 0 to count
        invariant Behind(relocations, ParseImports(bytes, pos, count - i, seen)) == all
      {
        if |bytes| < pos + IMPORT_SIZE {
          return false;
        }
        var moduleNum := Get32(bytes, pos);
        if moduleNum in seen {
          return false;
        }
        var table := ReadTable(bytes, Get32(bytes, pos + 4));
        if table.None? {
          return false;
        }
        BehindStep(relocations, ModuleTable(moduleNum, table.value),
                   ParseImports(bytes, pos + IMPORT_SIZE, count - i - 1, seen + {moduleNum}));
        relocations := relocations + [ModuleTable(moduleNum, table.value)];
        seen := seen + {moduleNum};
        pos := pos + IMPORT_SIZE;
      }
      BehindEnds(relocations, all);
      return true;
    }
  }

  /** The rest of a list that is read behind the part that is already there. */
  function Behind<T>(done: seq<T>, rest: Option<seq<T>>): Option<seq<T>> {
    if rest.None? then None else Some(done + rest.value)
  }

  lemma BehindEnds<T>(done: seq<T>, all: Option<seq<T>>)
    ensures Behind(done, Some([])) == Some(done) && Behind([], all) == all
  {
    assert done + [] == done;
    if all.Some? { assert [] + all.value == all.value; }
  }

  lemma BehindStep<T>(done: seq<T>, x: T, rest: Option<seq<T>>)
    ensures Behind(done + [x], rest) == Behind(done, if rest.None? then None else Some([x] + rest.value))
  {
    if rest.Some? { assert (done + [x]) + rest.value == done + ([x] + rest.value); }
  }

  /** The entries of a table up to STOP or the end of the file. */
  method ReadTable(bytes: seq<Byte>, tableOffs: nat) returns (table: Option<seq<Reloc>>)
    ensures table == ParseTable(bytes, tableOffs)
  {
    var relocs: seq<Reloc>, pos: nat := [], tableOffs;
    BehindEnds(relocs, ParseTable(bytes, pos));
    while pos < |bytes|
      invariant Behind(relocs, ParseTable(bytes, pos)) == ParseTable(bytes, tableOffs)
      decreases |bytes| - pos
    {
      var reloc := ParseReloc(bytes, pos);
      if reloc.None? {
        return None;
      }
      if reloc.value.kind == R_RVL_STOP {
        assert ParseTable(bytes, pos) == Some([reloc.value]);
        return Some(relocs + [reloc.value]);
      }
      BehindStep(relocs, reloc.value, ParseTable(bytes, pos + RELOC_SIZE));
      relocs := relocs + [reloc.value];
      pos := pos + RELOC_SIZE;
    }
    BehindEnds(relocs, ParseTable(bytes, pos));
    return Some(relocs);
  }

  lemma PartsInOrder(p: Plan)
    requires Writable(p)
    ensures var h := p.header;
            FileBytes(p) == WriteAll(WriteAll(WriteAll(WriteAll(WriteAll([],
              HeaderChunks(h, |p.sections|)), InfoChunks(p.sections, p.locs, h.sectionInfoOffset)),
              DataChunks(p.sections, p.locs)), ImportChunks(p.order, p.tableLocs, h.impOffset)),
              TableChunks(p.order, p.tables, p.tableLocs))
  {
    var h := p.header;
    var a, b := HeaderChunks(h, |p.sections|), InfoChunks(p.sections, p.locs, h.sectionInfoOffset);
    var c, d := DataChunks(p.sections, p.locs), ImportChunks(p.order, p.tableLocs, h.impOffset);
    WriteAllConcat([], a, b);
    WriteAllConcat([], a + b, c);
    WriteAllConcat([], a + b + c, d);
    WriteAllConcat([], a + b + c + d, TableChunks(p.order, p.tables, p.tableLocs));
  }

  method WriteImports(file: BinaryFile, order: seq<nat>, relocLocs: map<nat, nat>) returns (ok: bool)
    requires forall m :: m in order ==> m in relocLocs
    modifies file
    ensures ok <==> ImportsFit(order, Placed(order, relocLocs))
    ensures ok ==>
      file.bytes == WriteAll(old(file.bytes), ImportChunks(order, Placed(order, relocLocs), old(file.cursor)))
  {
    ghost var f, base, locs := file.bytes, file.cursor, Placed(order, relocLocs);
    ghost var fits := ImportsFit(order, locs);
    ghost var chunks := if fits then ImportChunks(order, locs, base) else [];
    for i := 0 to |order|
      invariant forall j :: 0 <= j < i ==> ImportFits(order[j], locs[j])
      invariant file.cursor == base + IMPORT_SIZE * i
      invariant fits ==> file.bytes == WriteAll(f, chunks[..i])
    {
      assert order[i] in order;
      var loc := relocLocs[order[i]];
      assert locs[i] == loc;
      if !ImportFits(order[i], loc) {
        return false;
      }
      if fits { ImportStep(f, order, locs, base, i, file.cursor); }
      file.Write(ImportBytes(order[i], loc));
    }
    assert chunks[..|chunks|] == chunks;
    return true;
  }

  lemma ImportStep(f: seq<Byte>, order: seq<nat>, locs: seq<nat>, base: nat, i: nat, pos: nat)
    requires ImportsFit(order, locs) && i < |order| && pos == base + IMPORT_SIZE * i
    ensures ImportFits(order[i], locs[i])
    ensures var chunks := ImportChunks(order, locs, base);
            WriteAll(f, chunks[..i + 1]) == WriteAt(WriteAll(f, chunks[..i]), pos, ImportBytes(order[i], locs[i]))
  {
    var chunks := ImportChunks(order, locs, base);
    WriteAllPrefix(f, chunks, i);
    assert chunks[i] == Chunk(pos, ImportBytes(order[i], locs[i]));
  }

  /** The entries of one relocation table, from the cursor on. */
  method WriteTable(file: BinaryFile, table: seq<Reloc>) returns (ok: bool)
    modifies file
    ensures ok <==> TableFits(table)
    ensures ok ==> file.bytes == WriteAll(old(file.bytes), EntryChunks(table, old(file.cursor)))
  {
    ghost var f, base, fits := file.bytes, file.cursor, TableFits(table);
    ghost var chunks := if fits then EntryChunks(table, base) else [];
    for i := 0 to |table|
      invariant forall j :: 0 <= j < i ==> RelocFits(table[j])
      invariant file.cursor == base + RELOC_SIZE * i
      invariant fits ==> file.bytes == WriteAll(f, chunks[..i])
    {
      if !RelocFits(table[i]) {
        return false;
      }
      file.Write(PackReloc(table[i]));
      if fits { WriteAllPrefix(f, chunks, i); }
    }
    assert chunks[..|chunks|] == chunks;
    return true;
  }

  /** The relocation tables, each from its own place on. */
  method WriteTables(file: BinaryFile, order: seq<nat>, tables: seq<ModuleTable>, relocLocs: map<nat, nat>)
    returns (ok: bool)
    requires forall m :: m in order ==> m in relocLocs
    modifies file
    ensures ok <==> TablesFit(order, tables)
    ensures ok ==>
      file.bytes == WriteAll(old(file.bytes), TableChunks(order, tables, Placed(order, relocLocs)))
  {
    ghost var f, locs, fits := file.bytes, Placed(order, relocLocs), TablesFit(order, tables);
    ghost var all := if fits then WriteAll(f, TableChunks(order, tables, locs)) else [];
    for i := 0 to |order|
      invariant forall j :: 0 <= j < i ==> TableFits(TableOf(tables, order[j]))
      invariant fits ==> TablesFit(order[i..], tables)
      invariant fits ==> WriteAll(file.bytes, TableChunks(order[i..], tables, locs[i..])) == all
    {
      assert order[i] in order && order[i..][0] == order[i] && locs[i] == relocLocs[order[i]];
      file.Seek(relocLocs[order[i]]);
      ghost var before := file.bytes;
      var table := TableOf(tables, order[i]);
      var written := WriteTable(file, table);
      if !written {
        return false;
      }
      if fits { TableChunksStep(before, order, tables, locs, i); }
    }
    return true;
  }

  lemma TableChunksStep(f: seq<Byte>, order: seq<nat>, tables: seq<ModuleTable>, locs: seq<nat>, i: nat)
    requires |locs| == |order| && i < |order| && TablesFit(order[i..], tables)
    ensures TablesFit(order[i + 1..], tables) && order[i..][0] in order[i..]
    ensures WriteAll(f, TableChunks(order[i..], tables, locs[i..]))
         == WriteAll(WriteAll(f, EntryChunks(TableOf(tables, order[i]), locs[i])),
                     TableChunks(order[i + 1..], tables, locs[i + 1..]))
  {
    var rest := order[i..];
    assert rest[1..] == order[i + 1..] && locs[i..][1..] == locs[i + 1..] && rest[0] == order[i];
    assert forall m :: m in rest[1..] ==> m in rest;
    WriteAllConcat(f, EntryChunks(TableOf(tables, order[i]), locs[i]),
                   TableChunks(order[i + 1..], tables, locs[i + 1..]));
  }

  /** The plan of a module whose branches lie in section data follows the layout. */
  lemma PlanLaidOut(h: Header, sections: seq<Section>, tables: seq<ModuleTable>, p: Plan, start: nat)
    requires SectionsValid(sections) && Preparable(h, sections, tables) && Distinct(Keys(tables))
    requires start == SectionsStart(h, sections)
    requires var env := EnvOf(h, SectionLocs(sections, start)); GoodSites(env, sections, SeenBranches(env, tables))
    requires IsPlan(p, h, sections, tables)
    ensures LaidOut(p, start) && SameFrame(p.sections, sections)
  {
    var env := EnvOf(h, SectionLocs(sections, start));
    SeenSites(env, tables);
    PatchesHold(env, sections, SeenBranches(env, tables));
    assert SameFrame(p.sections, sections);
    SameFrameLayout(p.sections, sections, start);
    LayoutLaidOut(h, start, p);
  }

  lemma LayoutLaidOut(h: Header, start: nat, p: Plan)
    requires SectionsValid(p.sections) && Distinct(Keys(p.tables))
    requires h.version >= 3 ==> h.index in Keys(p.tables)
    requires start == SectionsStart(h, p.sections)
    requires IsLayout(p, h, SectionLocs(p.sections, start), SectionsEnd(p.sections, start))
    ensures LaidOut(p, start)
  {
  }

  lemma {:induction false} SameFrameLayout(a: seq<Section>, b: seq<Section>, pos: nat)
    requires SameFrame(a, b) && SectionsValid(b)
    ensures SectionsValid(a)
    ensures SectionLocs(a, pos) == SectionLocs(b, pos) && SectionsEnd(a, pos) == SectionsEnd(b, pos)
    decreases |a|
  {
    assert forall i :: 0 <= i < |a| ==> SectionValid(b[i]) && SectionValid(a[i]);
    if a != [] {
      SameFrameLayout(a[1..], b[1..], if Stored(b[0]) then Align(pos, b[0].alignment) + b[0].secLen else pos);
    }
  }
}
