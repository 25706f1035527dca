/** What deleting branches makes of the gaps of a relocation table, and when the table can still be written
    (tools/relfile.py). */
module RelRepair {
  import opened RelLayout
  import opened RelPatch
  import opened RelScan
  import opened RelTable
  import opened RelTypes

  /** Entry `i` of a table once the run of branches before it is deleted: a marker does not get their gaps. */
  function Repaired(table: seq<Reloc>, i: nat): Reloc
    requires i < |table|
  {
    if table[i].kind < R_RVL_NONE then table[i].(offset := table[i].offset + RunBefore(table, i)) else table[i]
  }

  /** Every entry that survives still fits its place in the file. */
  predicate RepairedFits(table: seq<Reloc>) {
    forall i :: 0 <= i < |table| && table[i].kind != R_PPC_REL24 ==> RelocFits(Repaired(table, i))
  }

  /** The entries that survive, behind deleted gaps of `carry`. */
  function Survivors(table: seq<Reloc>, carry: nat): seq<Reloc>
    decreases |table|
  {
    if table == [] then []
    else
      var r := table[0];
      if r.kind == R_PPC_REL24 then Survivors(table[1..], carry + r.offset)
      else [if r.kind < R_RVL_NONE then r.(offset := r.offset + carry) else r] + Survivors(table[1..], 0)
  }

  lemma SurvivorsAfterDelete(table: seq<Reloc>)
    requires |table| >= 2 && table[0].kind == R_PPC_REL24
    ensures Survivors(AfterDelete(table), 0) == Survivors(table, 0)
  {
    var next, rest, gap := AfterDelete(table), table[1..], table[0].offset;
    assert Survivors(table, 0) == Survivors(rest, gap);
    if table[1].kind >= R_RVL_NONE {
      assert next == rest && rest[0] == table[1];
    } else {
      assert next[1..] == rest[1..] && rest[0] == table[1] && next[0] == rest[0].(offset := rest[0].offset + gap);
      SurvivorsHead(next, rest, gap);
    }
  }

  lemma SurvivorsHead(next: seq<Reloc>, rest: seq<Reloc>, gap: nat)
    requires next != [] && rest != [] && next[1..] == rest[1..] && rest[0].kind < R_RVL_NONE
    requires next[0] == rest[0].(offset := rest[0].offset + gap)
    ensures Survivors(next, 0) == Survivors(rest, gap)
  {
    assert next[0].offset == gap + rest[0].offset;
  }

  /** The scan of the own module's table leaves exactly the survivors. */
  lemma {:induction false} ScanLeavesSurvivors(env: Env, table: seq<Reloc>, pos: nat, sec: nat)
    requires Scannable(env, env.index, table)
    ensures Scan(env, env.index, table, pos, sec).table == Survivors(table, 0)
    decreases |table|
  {
    if table != [] {
      var r := table[0];
      if r.kind == R_PPC_REL24 {
        SurvivorsAfterDelete(table);
        ScanLeavesSurvivors(env, AfterDelete(table), pos, sec);
      } else {
        var next: nat, nextSec := if r.kind == R_RVL_SECT then r.offset else pos + r.offset,
                                  if r.kind == R_RVL_SECT then r.section else sec;
        ScanLeavesSurvivors(env, table[1..], next, nextSec);
      }
    }
  }

  lemma {:induction false} SurvivorsFit(table: seq<Reloc>, k: nat, carry: nat)
    requires k <= |table| && carry == RunBefore(table, k)
    ensures TableFits(Survivors(table[k..], carry))
       <==> forall i :: k <= i < |table| && table[i].kind != R_PPC_REL24 ==> RelocFits(Repaired(table, i))
    decreases |table| - k
  {
    if k < |table| {
      var next := if table[k].kind == R_PPC_REL24 then carry + table[k].offset else 0;
      assert table[k..][0] == table[k] && table[k..][1..] == table[k + 1..];
      SurvivorsFit(table, k + 1, next);
      if table[k].kind != R_PPC_REL24 {
        TableFitsCons(Repaired(table, k), Survivors(table[k + 1..], next));
      }
    }
  }

  lemma TableFitsCons(r: Reloc, rest: seq<Reloc>)
    ensures TableFits([r] + rest) <==> RelocFits(r) && TableFits(rest)
  {
    var table := [r] + rest;
    assert table[0] == r;
    assert forall i :: 1 <= i < |table| ==> table[i] == rest[i - 1];
    if TableFits(table) {
      forall i | 0 <= i < |rest| ensures RelocFits(rest[i]) { assert rest[i] == table[i + 1]; }
    }
  }

  /** The table that the scan leaves can be written exactly when every surviving entry, with the gaps of the branches
      deleted directly before it, fits. */
  lemma LeftTableFits(env: Env, table: seq<Reloc>)
    requires Scannable(env, env.index, table)
    ensures TableFits(Scan(env, env.index, table, 0, 0).table) <==> RepairedFits(table)
  {
    ScanLeavesSurvivors(env, table, 0, 0);
    SurvivorsFit(table, 0, 0);
    assert table[0..] == table;
  }

  // ----- all tables of a module -----

  /** Resolving the branches of module `index` leaves tables that can be written. */
  predicate TablesWillFit(index: nat, tables: seq<ModuleTable>) {
    forall m :: m in Keys(tables) ==>
      if m == index then RepairedFits(TableOf(tables, m)) else TableFits(TableOf(tables, m))
  }

  lemma {:induction false} ForeignTableStays(env: Env, mod: nat, table: seq<Reloc>, pos: nat, sec: nat)
    requires mod != env.index
    ensures Scan(env, mod, table, pos, sec).table == table
    decreases |table|
  {
    if table != [] {
      var r := table[0];
      ForeignTableStays(env, mod, table[1..], if r.kind == R_RVL_SECT then r.offset else pos + r.offset,
                        if r.kind == R_RVL_SECT then r.section else sec);
    }
  }

  lemma {:induction false} LeftTableOf(env: Env, tables: seq<ModuleTable>, m: nat)
    requires AllScannable(env, tables) && m in Keys(tables)
    ensures Scannable(env, m, TableOf(tables, m))
    ensures TableOf(LeftTables(env, tables), m) == Scan(env, m, TableOf(tables, m), 0, 0).table
  {
    var left := LeftTables(env, tables);
    assert Scannable(env, tables[0].mod, tables[0].table);
    if tables[0].mod != m {
      assert Keys(tables)[1..] == Keys(tables[1..]) && left[1..] == LeftTables(env, tables[1..]);
      assert m in Keys(tables)[1..];
      LeftTableOf(env, tables[1..], m);
    }
  }

  /** The tables that are left can be written exactly when those of the other modules fit and the own one does so with
      its repaired gaps. */
  lemma LeftTablesFit(env: Env, tables: seq<ModuleTable>)
    requires AllScannable(env, tables)
    ensures TablesFit(ModuleOrder(Keys(tables), env.index), LeftTables(env, tables))
       <==> TablesWillFit(env.index, tables)
  {
    var order, left := ModuleOrder(Keys(tables), env.index), LeftTables(env, tables);
    OrderMembers(Keys(tables), env.index);
    forall m | m in Keys(tables)
      ensures TableFits(TableOf(left, m))
         <==> if m == env.index then RepairedFits(TableOf(tables, m)) else TableFits(TableOf(tables, m))
    {
      LeftTableOf(env, tables, m);
      if m == env.index {
        LeftTableFits(env, TableOf(tables, m));
      } else {
        ForeignTableStays(env, m, TableOf(tables, m), 0, 0);
      }
    }
  }

  /** A table of the encoder, with gaps that all fit and none that is lost, that can no longer be written once its
      branch is resolved: the next gap becomes 0x10000. */
  lemma OverflowExample(env: Env, sym: Symbol)
    requires env.index == 1
    ensures var relocs := [(Rela(0xFFFC, 1, R_PPC_REL24, 0), sym), (Rela(0x1_0000, 1, 1, 0), sym)];
            && SortedFrom(relocs, 0)
            && var table := EncodeSection(relocs, 1) + [Stop];
               && GapsFit(table) && Scannable(env, 1, table) && GapSafe(table)
               && !RepairedFits(table) && !TableFits(Scan(env, 1, table, 0, 0).table)
  {
    OverflowTable(sym);
    var b, w := Reloc(0xFFFC, R_PPC_REL24, sym.shndx, sym.value), Reloc(4, 1, sym.shndx, sym.value);
    var table := [SectionChange(1), b, w, Stop];
    assert RunBefore(table, 1) == 0 && RunBefore(table, 2) == 0xFFFC && RunBefore(table, 3) == 0;
    assert Repaired(table, 2).offset == 0x1_0000;
    LeftTableFits(env, table);
  }

  lemma OverflowTable(sym: Symbol)
    ensures var relocs := [(Rela(0xFFFC, 1, R_PPC_REL24, 0), sym), (Rela(0x1_0000, 1, 1, 0), sym)];
            && SortedFrom(relocs, 0)
            && EncodeSection(relocs, 1) + [Stop]
            == [SectionChange(1), Reloc(0xFFFC, R_PPC_REL24, sym.shndx, sym.value),
                Reloc(4, 1, sym.shndx, sym.value), Stop]
  {
    var branch, word := (Rela(0xFFFC, 1, R_PPC_REL24, 0), sym), (Rela(0x1_0000, 1, 1, 0), sym);
    var relocs := [branch, word];
    assert relocs[1..] == [word] && [word][1..] == [];
    assert SortedFrom([word], 0xFFFC);
    var b, w := Reloc(0xFFFC, R_PPC_REL24, sym.shndx, sym.value), Reloc(4, 1, sym.shndx, sym.value);
    assert Entries(0xFFFC, branch) == [b];
    assert Entries(4, word) == [w];
    assert EncodeFrom([], 0x1_0000) == [];
    assert EncodeFrom([word], 0xFFFC) == [w];
    assert EncodeFrom(relocs, 0) == [b] + [w];
  }
}
