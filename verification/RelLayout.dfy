/** Where `Rel.write` of tools/relfile.py puts the parts of a REL file, and the chunks it writes. */
module RelLayout {
  import opened Bits
  import opened Bytes
  import opened Chunks
  import opened RelTypes

  const HEADER_SIZE: nat := 64
  const SECTION_INFO_SIZE: nat := 8
  const IMPORT_SIZE: nat := 8
  const RELOC_SIZE: nat := 8

  /** The scalar fields of class Rel. */
  datatype Header = Header(
    index: nat, version: nat, sectionInfoOffset: nat, pathOffset: nat, pathSize: nat, bssSize: nat,
    relOffset: nat, impOffset: nat, impSize: nat,
    prologSection: nat, epilogSection: nat, unresolvedSection: nat, prolog: nat, epilog: nat, unresolved: nat,
    alignment: nat, bssAlign: nat, fixSize: nat)

  /** `header_size` */
  function HeaderSize(version: nat): nat {
    HEADER_SIZE + (if version >= 2 then 8 else 0) + (if version >= 3 then 4 else 0)
  }

  /** The end of the section table. */
  function SectionsStart(h: Header, sections: seq<Section>): nat {
    HeaderSize(h.version) + SECTION_INFO_SIZE * |sections|
  }

  // ----- sections -----

  predicate Stored(sec: Section) {
    sec.secLen != 0 && !sec.isBss
  }

  predicate SectionValid(sec: Section) {
    && IsPow2(sec.alignment)
    && (if sec.isBss then sec.data == [] else |sec.data| == sec.secLen)
  }

  predicate SectionsValid(sections: seq<Section>) {
    forall i :: 0 <= i < |sections| ==> SectionValid(sections[i])
  }

  /** `section_data_locs` for the sections that follow file position `pos`. */
  function SectionLocs(sections: seq<Section>, pos: nat): (locs: seq<nat>)
    ensures |locs| == |sections|
  {
    if sections == [] then []
    else if Stored(sections[0]) then
      var p := Align(pos, sections[0].alignment);
      [p] + SectionLocs(sections[1..], p + sections[0].secLen)
    else [0] + SectionLocs(sections[1..], pos)
  }

  function SectionsEnd(sections: seq<Section>, pos: nat): nat {
    if sections == [] then pos
    else if Stored(sections[0]) then
      SectionsEnd(sections[1..], Align(pos, sections[0].alignment) + sections[0].secLen)
    else SectionsEnd(sections[1..], pos)
  }

  function DataChunk(sec: Section, loc: nat): Chunk {
    Chunk(loc, if Stored(sec) then sec.data else [])
  }

  function DataChunks(sections: seq<Section>, locs: seq<nat>): (r: seq<Chunk>)
    requires |locs| == |sections|
    ensures |r| == |sections|
  {
    seq(|sections|, i requires 0 <= i < |sections| => DataChunk(sections[i], locs[i]))
  }

  /** Section data lies behind `pos` in disjoint ascending ranges, each at its own alignment. */
  lemma {:induction false} DataTiled(sections: seq<Section>, pos: nat)
    requires SectionsValid(sections)
    ensures Tiled(DataChunks(sections, SectionLocs(sections, pos)), pos, SectionsEnd(sections, pos))
    ensures forall i :: 0 <= i < |sections| && Stored(sections[i]) ==>
              pos <= SectionLocs(sections, pos)[i] && SectionLocs(sections, pos)[i] % sections[i].alignment == 0
    decreases |sections|
  {
    if sections != [] {
      var sec, locs, rest := sections[0], SectionLocs(sections, pos), sections[1..];
      assert SectionValid(sec);
      AlignRounds(pos, sec.alignment);
      var next := if Stored(sec) then Align(pos, sec.alignment) + sec.secLen else pos;
      DataTiled(rest, next);
      assert locs[1..] == SectionLocs(rest, next);
      DataChunksRest(sections, locs);
    }
  }

  lemma DataChunksRest(sections: seq<Section>, locs: seq<nat>)
    requires sections != [] && |locs| == |sections|
    ensures DataChunks(sections, locs)[0] == DataChunk(sections[0], locs[0])
    ensures DataChunks(sections, locs)[1..] == DataChunks(sections[1..], locs[1..])
  {
  }

  // ----- modules -----

  function Keys(tables: seq<ModuleTable>): (r: seq<nat>)
    ensures |r| == |tables| && forall i :: 0 <= i < |r| ==> r[i] == tables[i].mod
  {
    seq(|tables|, i requires 0 <= i < |tables| => tables[i].mod)
  }

  predicate Distinct(s: seq<nat>) {
    forall i, j :: 0 <= i < j < |s| ==> s[i] != s[j]
  }

  predicate Ascending(s: seq<nat>) {
    forall i, j :: 0 <= i < j < |s| ==> s[i] <= s[j]
  }

  function Insert(x: nat, s: seq<nat>): seq<nat> {
    if s == [] || x <= s[0] then [x] + s else [s[0]] + Insert(x, s[1..])
  }

  function Sorted(s: seq<nat>): seq<nat> {
    if s == [] then [] else Insert(s[0], Sorted(s[1..]))
  }

  lemma {:induction false} InsertCounts(x: nat, s: seq<nat>)
    ensures multiset(Insert(x, s)) == multiset(s) + multiset{x}
  {
    if s != [] && x > s[0] {
      InsertCounts(x, s[1..]);
      assert s == [s[0]] + s[1..];
    }
  }

  lemma {:induction false} InsertAbove(x: nat, s: seq<nat>, lo: nat)
    requires lo <= x && forall i :: 0 <= i < |s| ==> lo <= s[i]
    ensures forall i :: 0 <= i < |Insert(x, s)| ==> lo <= Insert(x, s)[i]
  {
    if s != [] && x > s[0] { InsertAbove(x, s[1..], lo); }
  }

  lemma {:induction false} InsertAscends(x: nat, s: seq<nat>)
    requires Ascending(s)
    ensures Ascending(Insert(x, s))
  {
    if s != [] && x > s[0] {
      InsertAscends(x, s[1..]);
      InsertAbove(x, s[1..], s[0]);
    }
  }

  lemma {:induction false} SortedSorts(s: seq<nat>)
    ensures Ascending(Sorted(s)) && multiset(Sorted(s)) == multiset(s)
  {
    if s != [] {
      SortedSorts(s[1..]);
      InsertCounts(s[0], Sorted(s[1..]));
      InsertAscends(s[0], Sorted(s[1..]));
      assert s == [s[0]] + s[1..];
    }
  }

  function Foreign(keys: seq<nat>, index: nat): seq<nat> {
    if keys == [] then []
    else (if keys[0] != index && keys[0] != 0 then [keys[0]] else []) + Foreign(keys[1..], index)
  }

  /** `relocs_module_nums`: foreign modules ascending, the own module, module 0. */
  function ModuleOrder(keys: seq<nat>, index: nat): seq<nat> {
    Sorted(Foreign(keys, index)) + (if index in keys then [index] else []) + (if 0 in keys then [0] else [])
  }

  lemma {:induction false} ForeignCount(keys: seq<nat>, index: nat, m: nat)
    ensures multiset(Foreign(keys, index))[m] == if m == index || m == 0 then 0 else multiset(keys)[m]
  {
    if keys != [] {
      assert keys == [keys[0]] + keys[1..];
      ForeignCount(keys[1..], index, m);
    }
  }

  lemma {:induction false} DistinctCount(keys: seq<nat>, m: nat)
    requires Distinct(keys)
    ensures multiset(keys)[m] == if m in keys then 1 else 0
  {
    if keys != [] {
      var rest := keys[1..];
      assert keys == [keys[0]] + rest;
      assert keys[0] !in rest;
      DistinctCount(rest, m);
    }
  }

  /** Every module stands in the import table exactly once, unless the module being written is number 0
      and has relocations against itself: then 0 stands there twice. */
  lemma ModuleOrderCounts(keys: seq<nat>, index: nat, m: nat)
    requires Distinct(keys)
    ensures multiset(ModuleOrder(keys, index))[m]
         == if m !in keys then 0 else if m == 0 == index then 2 else 1
  {
    DistinctCount(keys, m);
    ForeignCount(keys, index, m);
    SortedSorts(Foreign(keys, index));
  }

  /** The modules that a reader of the import table gets: of a module number 0 that is listed twice, the first. */
  function ImportOrder(keys: seq<nat>, index: nat): seq<nat> {
    Sorted(Foreign(keys, index)) + (if index in keys then [index] else [])
      + (if 0 in keys && index != 0 then [0] else [])
  }

  lemma ImportOrderCounts(keys: seq<nat>, index: nat, m: nat)
    requires Distinct(keys)
    ensures multiset(ImportOrder(keys, index))[m] == if m in keys then 1 else 0
  {
    DistinctCount(keys, m);
    ForeignCount(keys, index, m);
    SortedSorts(Foreign(keys, index));
  }

  /** Each key is read once: the foreign modules in ascending order, then the own module, then module 0. */
  lemma ImportOrderShape(keys: seq<nat>, index: nat)
    requires Distinct(keys)
    ensures var order := ImportOrder(keys, index);
            && Distinct(order)
            && |order| == |keys|
            && (forall m :: m in order <==> m in keys)
            && (0 in keys ==> order[|order| - 1] == 0)
            && (index in keys && index != 0 ==> order[|order| - (if 0 in keys then 2 else 1)] == index)
            && (forall i, j :: 0 <= i < j < |order| && order[j] != 0 && order[j] != index ==> order[i] < order[j])
  {
    ImportOrderDistinct(keys, index);
    ImportOrderSet(keys, index);
    ImportOrderParts(keys, index);
  }

  lemma ImportOrderParts(keys: seq<nat>, index: nat)
    requires Distinct(ImportOrder(keys, index))
    ensures var order := ImportOrder(keys, index);
            && (0 in keys ==> order != [] && order[|order| - 1] == 0)
            && (index in keys && index != 0 ==>
                  |order| >= 2 - (if 0 in keys then 0 else 1) && order[|order| - (if 0 in keys then 2 else 1)] == index)
            && (forall i, j :: 0 <= i < j < |order| && order[j] != 0 && order[j] != index ==> order[i] < order[j])
  {
    var order, f := ImportOrder(keys, index), Sorted(Foreign(keys, index));
    SortedSorts(Foreign(keys, index));
    forall i, j | 0 <= i < j < |order| && order[j] != 0 && order[j] != index ensures order[i] < order[j] {
      assert j < |f| && f[i] <= f[j];
      assert order[i] != order[j];
    }
  }

  lemma ImportOrderSet(keys: seq<nat>, index: nat)
    requires Distinct(keys)
    ensures |ImportOrder(keys, index)| == |keys|
    ensures forall m :: m in ImportOrder(keys, index) <==> m in keys
  {
    var order := ImportOrder(keys, index);
    var a: multiset<nat>, b: multiset<nat> := multiset(order), multiset(keys);
    forall m: nat ensures a[m] == b[m] {
      ImportOrderCounts(keys, index, m);
      DistinctCount(keys, m);
    }
    assert a == b && |a| == |order| && |b| == |keys|;
    assert forall m :: m in order <==> m in a;
    assert forall m :: m in keys <==> m in b;
  }

  lemma ImportOrderDistinct(keys: seq<nat>, index: nat)
    requires Distinct(keys)
    ensures Distinct(ImportOrder(keys, index))
  {
    var order := ImportOrder(keys, index);
    forall i, j | 0 <= i < j < |order| ensures order[i] != order[j] {
      if order[i] == order[j] {
        TwiceCounts(order, i, j);
        ImportOrderCounts(keys, index, order[i]);
      }
    }
  }

  /** The module being written is number 0 and has relocations against itself. */
  predicate ListedTwice(keys: seq<nat>, index: nat) {
    index == 0 && 0 in keys
  }

  /** What is written is what is read, and a second entry for a module 0 that is listed twice. */
  lemma ModuleOrderReads(keys: seq<nat>, index: nat)
    ensures ModuleOrder(keys, index) == ImportOrder(keys, index) + (if ListedTwice(keys, index) then [0] else [])
    ensures ListedTwice(keys, index) ==> ImportOrder(keys, index) == Sorted(Foreign(keys, index)) + [0]
  {
  }

  /** The import table of a module whose number is not 0: foreign modules in ascending order, then the own module, then
      module 0, each once. */
  lemma ModuleOrderShape(keys: seq<nat>, index: nat)
    requires Distinct(keys) && index != 0
    ensures var order := ModuleOrder(keys, index);
            && Distinct(order)
            && |order| == |keys|
            && (forall m :: m in order <==> m in keys)
            && (0 in keys ==> order[|order| - 1] == 0)
            && (index in keys ==> order[|order| - (if 0 in keys then 2 else 1)] == index)
            && (forall i, j :: 0 <= i < j < |order| && order[j] != 0 && order[j] != index ==> order[i] < order[j])
  {
    ImportOrderShape(keys, index);
    ModuleOrderReads(keys, index);
  }

  lemma OrderMembers(keys: seq<nat>, index: nat)
    ensures forall m :: m in ModuleOrder(keys, index) <==> m in keys
  {
    var f := Foreign(keys, index);
    SortedSorts(f);
    forall m: nat ensures m in ModuleOrder(keys, index) <==> m in keys {
      ForeignCount(keys, index, m);
      assert m in Sorted(f) <==> m in multiset(Sorted(f));
      assert m in keys <==> m in multiset(keys);
    }
  }

  lemma TwiceCounts(s: seq<nat>, i: nat, j: nat)
    requires i < j < |s| && s[i] == s[j]
    ensures multiset(s)[s[i]] >= 2
  {
    assert s == s[..i] + [s[i]] + s[i + 1..j] + [s[j]] + s[j + 1..];
  }

  // ----- relocation tables -----

  /** The table of module `m`; a module that is not there has no entries. */
  function TableOf(tables: seq<ModuleTable>, m: nat): seq<Reloc> {
    if tables == [] then []
    else if tables[0].mod == m then tables[0].table
    else TableOf(tables[1..], m)
  }

  lemma {:induction false} TableOfIndex(tables: seq<ModuleTable>, i: nat)
    requires Distinct(Keys(tables)) && i < |tables|
    ensures TableOf(tables, tables[i].mod) == tables[i].table
  {
    assert Keys(tables)[i] == tables[i].mod;
    if i > 0 {
      assert Keys(tables)[1..] == Keys(tables[1..]);
      assert Keys(tables)[0] != Keys(tables)[i];
      TableOfIndex(tables[1..], i - 1);
    }
  }

  function TableLocs(order: seq<nat>, tables: seq<ModuleTable>, pos: nat): (r: seq<nat>)
    ensures |r| == |order|
  {
    if order == [] then []
    else
      var p := Align(pos, 4);
      [p] + TableLocs(order[1..], tables, p + |TableOf(tables, order[0])| * RELOC_SIZE)
  }

  function TablesEnd(order: seq<nat>, tables: seq<ModuleTable>, pos: nat): nat {
    if order == [] then pos
    else TablesEnd(order[1..], tables, Align(pos, 4) + |TableOf(tables, order[0])| * RELOC_SIZE)
  }

  predicate RelocFits(r: Reloc) {
    r.offset < 0x1_0000 && r.kind < 256 && r.section < 256 && 0 <= r.addend < 0x1_0000_0000
  }

  function PackReloc(r: Reloc): (s: seq<Byte>)
    requires RelocFits(r)
    ensures |s| == RELOC_SIZE
  {
    Pack16(r.offset) + [r.kind, r.section] + Pack32(r.addend)
  }

  predicate TableFits(table: seq<Reloc>) {
    forall i :: 0 <= i < |table| ==> RelocFits(table[i])
  }

  function EntryChunks(table: seq<Reloc>, loc: nat): (r: seq<Chunk>)
    requires TableFits(table)
    ensures |r| == |table|
  {
    seq(|table|, i requires 0 <= i < |table| => Chunk(loc + RELOC_SIZE * i, PackReloc(table[i])))
  }

  predicate TablesFit(order: seq<nat>, tables: seq<ModuleTable>) {
    forall m :: m in order ==> TableFits(TableOf(tables, m))
  }

  function TableChunks(order: seq<nat>, tables: seq<ModuleTable>, locs: seq<nat>): seq<Chunk>
    requires TablesFit(order, tables) && |locs| == |order|
  {
    if order == [] then []
    else
      assert order[0] in order;
      EntryChunks(TableOf(tables, order[0]), locs[0]) + TableChunks(order[1..], tables, locs[1..])
  }

  lemma {:induction false} EntriesTiled(table: seq<Reloc>, loc: nat)
    requires TableFits(table)
    ensures Tiled(EntryChunks(table, loc), loc, loc + |table| * RELOC_SIZE)
    decreases |table|
  {
    if table != [] {
      EntriesTiled(table[1..], loc + RELOC_SIZE);
      assert EntryChunks(table, loc)[1..] == EntryChunks(table[1..], loc + RELOC_SIZE);
    }
  }

  lemma Align4(pos: nat)
    ensures pos <= Align(pos, 4) < pos + 4 && Align(pos, 4) % 4 == 0
  {
    AlignRounds(pos, 4);
  }

  lemma {:induction false} TablesAligned(order: seq<nat>, tables: seq<ModuleTable>, pos: nat)
    ensures forall i :: 0 <= i < |order| ==>
              pos <= TableLocs(order, tables, pos)[i] && TableLocs(order, tables, pos)[i] % 4 == 0
    decreases |order|
  {
    if order != [] {
      var e := Align(pos, 4) + |TableOf(tables, order[0])| * RELOC_SIZE;
      Align4(pos);
      TablesAligned(order[1..], tables, e);
      assert TableLocs(order, tables, pos)[1..] == TableLocs(order[1..], tables, e);
    }
  }

  /** The relocation tables lie behind `pos` at multiples of four, in disjoint ascending ranges. */
  lemma {:induction false} TablesTiled(order: seq<nat>, tables: seq<ModuleTable>, pos: nat)
    requires TablesFit(order, tables)
    ensures Tiled(TableChunks(order, tables, TableLocs(order, tables, pos)), pos, TablesEnd(order, tables, pos))
    ensures forall i :: 0 <= i < |order| ==>
              pos <= TableLocs(order, tables, pos)[i] && TableLocs(order, tables, pos)[i] % 4 == 0
    decreases |order|
  {
    TablesAligned(order, tables, pos);
    if order != [] {
      assert order[0] in order;
      var table, p := TableOf(tables, order[0]), Align(pos, 4);
      var e := p + |table| * RELOC_SIZE;
      Align4(pos);
      EntriesTiled(table, p);
      TiledWiden(EntryChunks(table, p), p, pos, e, e);
      TablesTiled(order[1..], tables, e);
      var locs := TableLocs(order, tables, pos);
      assert locs[1..] == TableLocs(order[1..], tables, e);
      TiledConcat(EntryChunks(table, p), TableChunks(order[1..], tables, locs[1..]), pos, e,
                  TablesEnd(order, tables, pos));
    }
  }

  // ----- the dictionary of places -----

  /** The dictionary `reloc_locs`: a module that is placed twice keeps its last place. */
  function LocMap(order: seq<nat>, locs: seq<nat>): map<nat, nat>
    requires |order| == |locs|
    ensures forall m :: m in order <==> m in LocMap(order, locs)
  {
    var n := |order|;
    if n == 0 then map[]
    else
      assert order == order[..n - 1] + [order[n - 1]];
      LocMap(order[..n - 1], locs[..n - 1])[order[n - 1] := locs[n - 1]]
  }

  lemma {:induction false} LocMapDistinct(order: seq<nat>, locs: seq<nat>, i: nat)
    requires |order| == |locs| && Distinct(order) && i < |order|
    ensures LocMap(order, locs)[order[i]] == locs[i]
    decreases |order|
  {
    var n := |order|;
    if i < n - 1 {
      LocMapDistinct(order[..n - 1], locs[..n - 1], i);
    }
  }

  function Placed(order: seq<nat>, locs: map<nat, nat>): (r: seq<nat>)
    requires forall m :: m in order ==> m in locs
    ensures |r| == |order|
  {
    seq(|order|, i requires 0 <= i < |order| => assert order[i] in order; locs[order[i]])
  }

  lemma PlacedDistinct(order: seq<nat>, locs: seq<nat>)
    requires Distinct(order) && |locs| == |order|
    ensures Placed(order, LocMap(order, locs)) == locs
  {
    forall i | 0 <= i < |order| ensures Placed(order, LocMap(order, locs))[i] == locs[i] {
      LocMapDistinct(order, locs, i);
    }
  }

  /** Where the tables of `order` are written: a module that is listed twice gets its last place both times. */
  function TablePlaces(order: seq<nat>, tables: seq<ModuleTable>, pos: nat): (r: seq<nat>)
    ensures |r| == |order|
  {
    Placed(order, LocMap(order, TableLocs(order, tables, pos)))
  }

  lemma {:induction false} TableLocsSnoc(order: seq<nat>, m: nat, tables: seq<ModuleTable>, pos: nat)
    ensures TableLocs(order + [m], tables, pos)
         == TableLocs(order, tables, pos) + [Align(TablesEnd(order, tables, pos), 4)]
    ensures TablesEnd(order + [m], tables, pos)
         == Align(TablesEnd(order, tables, pos), 4) + |TableOf(tables, m)| * RELOC_SIZE
    decreases |order|
  {
    var all := order + [m];
    if order == [] {
      assert all == [m] && all[1..] == [];
    } else {
      assert all[0] == order[0] && all[1..] == order[1..] + [m];
      TableLocsSnoc(order[1..], m, tables, Align(pos, 4) + |TableOf(tables, order[0])| * RELOC_SIZE);
    }
  }

  lemma LocMapSnoc(order: seq<nat>, m: nat, locs: seq<nat>, loc: nat)
    requires |order| == |locs|
    ensures LocMap(order + [m], locs + [loc]) == LocMap(order, locs)[m := loc]
  {
    assert (order + [m])[..|order|] == order && (locs + [loc])[..|order|] == locs;
  }

  /** Both places of a module that is listed twice are the last one. */
  lemma PlacesTwice(front: seq<nat>, m: nat, tables: seq<ModuleTable>, pos: nat)
    requires Distinct(front) && m !in front
    ensures var q := Align(TablesEnd(front + [m], tables, pos), 4);
            TablePlaces(front + [m] + [m], tables, pos) == TableLocs(front, tables, pos) + [q] + [q]
  {
    var firsts, p := TableLocs(front, tables, pos), Align(TablesEnd(front, tables, pos), 4);
    var q := Align(TablesEnd(front + [m], tables, pos), 4);
    TableLocsSnoc(front, m, tables, pos);
    TableLocsSnoc(front + [m], m, tables, pos);
    LocMapSnoc(front, m, firsts, p);
    LocMapSnoc(front + [m], m, firsts + [p], q);
    LastPlaces(front, firsts, m, LocMap(front, firsts)[m := p][m := q], q);
  }

  lemma LastPlaces(front: seq<nat>, firsts: seq<nat>, m: nat, places: map<nat, nat>, q: nat)
    requires |front| == |firsts| && Distinct(front) && m !in front
    requires m in places && places[m] == q
    requires forall k :: k in front ==> k in places && places[k] == LocMap(front, firsts)[k]
    ensures Placed(front + [m] + [m], places) == firsts + [q] + [q]
  {
    forall i | 0 <= i < |front| ensures places[front[i]] == firsts[i] {
      LocMapDistinct(front, firsts, i);
      assert front[i] in front;
    }
  }

  lemma FitsParts(order: seq<nat>, m: nat, tables: seq<ModuleTable>)
    requires TablesFit(order + [m], tables)
    ensures TablesFit(order, tables) && TableFits(TableOf(tables, m))
    ensures order != [] ==> TablesFit(order[1..] + [m], tables) && order[0] in order
  {
    var all := order + [m];
    assert m in all && forall k :: k in order ==> k in all;
    if order != [] {
      assert forall k :: k in order[1..] + [m] ==> k in all;
    }
  }

  lemma {:induction false} TableChunksSnoc(order: seq<nat>, m: nat, tables: seq<ModuleTable>, locs: seq<nat>, loc: nat)
    requires TablesFit(order + [m], tables) && |locs| == |order|
    ensures TablesFit(order, tables) && TableFits(TableOf(tables, m))
    ensures TableChunks(order + [m], tables, locs + [loc])
         == TableChunks(order, tables, locs) + EntryChunks(TableOf(tables, m), loc)
    decreases |order|
  {
    var all, places := order + [m], locs + [loc];
    FitsParts(order, m, tables);
    if order == [] {
      assert all[0] == m && all[1..] == [] && places[0] == loc;
    } else {
      assert all[0] == order[0] && all[1..] == order[1..] + [m];
      assert places[0] == locs[0] && places[1..] == locs[1..] + [loc];
      TableChunksSnoc(order[1..], m, tables, locs[1..], loc);
    }
  }
}
