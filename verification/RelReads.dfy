/** What reading any REL file gives, stated on the bytes of the file (`Rel.read` of tools/relfile.py). */
module RelReads {
  import opened Bytes
  import opened RelFormat
  import opened RelLayout
  import opened RelTypes
  import opened Wrappers

  // ----- the parts of a file -----

  function InfoPlace(pos: nat, i: nat): nat {
    pos + 8 * i
  }

  /** A section is read by its two words at `at`: the lowest bit of the first says that it is executable, the rest of it
      where its data stand, of which the file may hold fewer than promised; nowhere means bss. */
  predicate SectionSays(bytes: seq<Byte>, at: nat, sec: Section) {
    && at + 8 <= |bytes|
    && var offset, len := Get32(bytes, at) / 4 * 4, Get32(bytes, at + 4);
       && (sec.executable <==> Get32(bytes, at) % 2 == 1) && sec.secLen == len && sec.alignment == 0
       && (sec.isBss <==> offset == 0)
       && sec.data == if offset == 0 || offset >= |bytes| then []
                      else if offset + len <= |bytes| then bytes[offset..offset + len] else bytes[offset..]
  }

  /** A relocation entry of 8 bytes, of a type that there is. */
  predicate EntrySays(bytes: seq<Byte>, at: nat, r: Reloc) {
    && at + 8 <= |bytes| && r.offset == Get16(bytes, at) && r.kind == bytes[at + 2] && r.section == bytes[at + 3]
    && r.addend == Get32(bytes, at + 4) && (r.kind <= 13 || r.kind in {109, 201, 202, 203})
  }

  /** The entries from `pos` on, up to the first STOP or the end of the file. */
  predicate TableSays(bytes: seq<Byte>, pos: nat, table: seq<Reloc>) {
    && (forall j :: 0 <= j < |table| ==> EntrySays(bytes, InfoPlace(pos, j), table[j]))
    && (forall j :: 0 <= j < |table| - 1 ==> table[j].kind != 203)
    && ((table != [] && table[|table| - 1].kind == 203) || InfoPlace(pos, |table|) >= |bytes|)
  }

  predicate ImportSays(bytes: seq<Byte>, at: nat, t: ModuleTable) {
    at + 8 <= |bytes| && t.mod == Get32(bytes, at) && TableSays(bytes, Get32(bytes, at + 4), t.table)
  }

  predicate DistinctModules(tables: seq<ModuleTable>) {
    forall j, k :: 0 <= j < k < |tables| ==> tables[j].mod != tables[k].mod
  }

  /** The header words. What the version does not store stays as given, and the last word is taken from the second of
      the two that are always 0. */
  predicate HeaderSays(bytes: seq<Byte>, h: Header, alignment: nat, bssAlign: nat) {
    && |bytes| >= 64 && (Get32(bytes, 28) >= 2 ==> |bytes| >= 72)
    && h.index == Get32(bytes, 0) && h.sectionInfoOffset == Get32(bytes, 16) && h.pathOffset == Get32(bytes, 20)
    && h.pathSize == Get32(bytes, 24) && h.version == Get32(bytes, 28) && h.bssSize == Get32(bytes, 32)
    && h.relOffset == Get32(bytes, 36) && h.impOffset == Get32(bytes, 40) && h.impSize == Get32(bytes, 44)
    && h.prologSection == bytes[48] && h.epilogSection == bytes[49] && h.unresolvedSection == bytes[50]
    && h.prolog == Get32(bytes, 52) && h.epilog == Get32(bytes, 56) && h.unresolved == Get32(bytes, 60)
    && h.alignment == (if h.version >= 2 then Get32(bytes, 64) else alignment)
    && h.bssAlign == (if h.version >= 2 then Get32(bytes, 68) else bssAlign)
    && h.fixSize == if h.version >= 3 then Get32(bytes, 8) else 0
  }

  /** The whole file: as many sections as the header counts, and one table for every 8 bytes of the import table or part
      of them, no module twice. */
  predicate FileSays(bytes: seq<Byte>, image: Image, alignment: nat, bssAlign: nat) {
    && HeaderSays(bytes, image.header, alignment, bssAlign)
    && |image.sections| == Get32(bytes, 12)
    && (forall i :: 0 <= i < |image.sections| ==>
          SectionSays(bytes, InfoPlace(Get32(bytes, 16), i), image.sections[i]))
    && 8 * |image.tables| - 8 < Get32(bytes, 44) <= 8 * |image.tables|
    && (forall k :: 0 <= k < |image.tables| ==> ImportSays(bytes, InfoPlace(Get32(bytes, 40), k), image.tables[k]))
    && DistinctModules(image.tables)
  }

  // ----- reading gives that, and nothing else -----

  lemma SectionIff(bytes: seq<Byte>, at: nat, sec: Section)
    requires at + 8 <= |bytes|
    ensures SectionSays(bytes, at, sec) <==> sec == ParseSection(bytes, at)
  {
  }

  lemma {:induction false} SectionsIff(bytes: seq<Byte>, pos: nat, count: nat, sections: seq<Section>)
    ensures ParseSections(bytes, pos, count) == Some(sections)
       <==> |sections| == count && forall i :: 0 <= i < count ==> SectionSays(bytes, InfoPlace(pos, i), sections[i])
    decreases count
  {
    if count > 0 {
      var next := pos + 8;
      if sections != [] {
        SectionsIff(bytes, next, count - 1, sections[1..]);
        if pos + 8 <= |bytes| { SectionIff(bytes, pos, sections[0]); }
        ShiftedSections(bytes, pos, next, sections);
      }
      SectionsSome(bytes, pos, count, sections);
    }
  }

  lemma SectionsSome(bytes: seq<Byte>, pos: nat, count: nat, sections: seq<Section>)
    requires count > 0
    ensures ParseSections(bytes, pos, count) == Some(sections)
       <==> && pos + 8 <= |bytes| && sections != [] && sections[0] == ParseSection(bytes, pos)
            && ParseSections(bytes, pos + 8, count - 1) == Some(sections[1..])
  {
    if pos + 8 <= |bytes| && sections != [] { assert sections == [sections[0]] + sections[1..]; }
  }

  lemma ShiftedSections(bytes: seq<Byte>, pos: nat, next: nat, sections: seq<Section>)
    requires sections != [] && next == pos + 8
    ensures (forall i :: 0 <= i < |sections| ==> SectionSays(bytes, InfoPlace(pos, i), sections[i]))
       <==> && SectionSays(bytes, pos, sections[0])
            && forall i :: 0 <= i < |sections[1..]| ==> SectionSays(bytes, InfoPlace(next, i), sections[1..][i])
  {
    var rest := sections[1..];
    assert InfoPlace(pos, 0) == pos;
    assert forall i :: 0 <= i < |rest| ==> rest[i] == sections[i + 1] && InfoPlace(next, i) == InfoPlace(pos, i + 1);
    if forall i :: 0 <= i < |rest| ==> SectionSays(bytes, InfoPlace(next, i), rest[i]) {
      forall i | 1 <= i < |sections| ensures SectionSays(bytes, InfoPlace(pos, i), sections[i]) {
        assert SectionSays(bytes, InfoPlace(next, i - 1), rest[i - 1]);
      }
    }
  }

  lemma EntryIff(bytes: seq<Byte>, at: nat, r: Reloc)
    ensures EntrySays(bytes, at, r) <==> ParseReloc(bytes, at) == Some(r)
  {
  }

  lemma {:induction false} TableIff(bytes: seq<Byte>, pos: nat, table: seq<Reloc>)
    ensures ParseTable(bytes, pos) == Some(table) <==> TableSays(bytes, pos, table)
    decreases |table|
  {
    if table == [] {
      assert InfoPlace(pos, 0) == pos;
      if pos < |bytes| && ParseReloc(bytes, pos).Some? { assert ParseTable(bytes, pos) != Some([]); }
    } else {
      var next := pos + 8;
      TableIff(bytes, next, table[1..]);
      EntryIff(bytes, pos, table[0]);
      TableSome(bytes, pos, table);
      ShiftedTable(bytes, pos, next, table);
    }
  }

  lemma TableSome(bytes: seq<Byte>, pos: nat, table: seq<Reloc>)
    requires table != []
    ensures ParseTable(bytes, pos) == Some(table)
       <==> && ParseReloc(bytes, pos) == Some(table[0])
            && if table[0].kind == 203 then table[1..] == [] else ParseTable(bytes, pos + 8) == Some(table[1..])
  {
    assert table == [table[0]] + table[1..];
    var r := ParseReloc(bytes, pos);
    if pos < |bytes| && r.Some? {
      var rest := ParseTable(bytes, pos + 8);
      if r.value.kind == 203 {
        assert table[1..] == [] ==> table == [table[0]];
      } else if rest.Some? {
        assert ([r.value] + rest.value)[1..] == rest.value;
      }
    }
  }

  lemma ShiftedTable(bytes: seq<Byte>, pos: nat, next: nat, table: seq<Reloc>)
    requires table != [] && next == pos + 8
    ensures TableSays(bytes, pos, table)
       <==> && EntrySays(bytes, pos, table[0])
            && if table[0].kind == 203 then table[1..] == [] else TableSays(bytes, next, table[1..])
  {
    var rest := table[1..];
    assert InfoPlace(pos, 0) == pos && InfoPlace(next, |rest|) == InfoPlace(pos, |table|);
    assert forall j :: 0 <= j < |rest| ==> rest[j] == table[j + 1] && InfoPlace(next, j) == InfoPlace(pos, j + 1);
    if TableSays(bytes, next, rest) && EntrySays(bytes, pos, table[0]) && table[0].kind != 203 {
      forall j | 0 <= j < |table| ensures EntrySays(bytes, InfoPlace(pos, j), table[j]) {
        if j > 0 { assert EntrySays(bytes, InfoPlace(next, j - 1), rest[j - 1]); }
      }
      forall j | 0 <= j < |table| - 1 ensures table[j].kind != 203 {
        if j > 0 { assert rest[j - 1].kind != 203; }
      }
    }
  }

  lemma ImportIff(bytes: seq<Byte>, at: nat, t: ModuleTable)
    requires at + 8 <= |bytes|
    ensures ImportSays(bytes, at, t)
       <==> t.mod == Get32(bytes, at) && ParseTable(bytes, Get32(bytes, at + 4)) == Some(t.table)
  {
    TableIff(bytes, Get32(bytes, at + 4), t.table);
  }

  /** None of the modules was seen before, and none is listed twice. */
  predicate NewModules(tables: seq<ModuleTable>, seen: set<nat>) {
    (forall k :: 0 <= k < |tables| ==> tables[k].mod !in seen) && DistinctModules(tables)
  }

  lemma NewFirst(tables: seq<ModuleTable>, seen: set<nat>)
    requires tables != []
    ensures NewModules(tables, seen)
       <==> tables[0].mod !in seen && NewModules(tables[1..], seen + {tables[0].mod})
  {
    var rest := tables[1..];
    assert forall k :: 0 <= k < |rest| ==> rest[k] == tables[k + 1];
    if tables[0].mod !in seen && NewModules(rest, seen + {tables[0].mod}) {
      forall j, k | 0 <= j < k < |tables| ensures tables[j].mod != tables[k].mod {
        assert tables[k] == rest[k - 1];
        if j > 0 { assert tables[j] == rest[j - 1]; }
      }
      forall k | 0 <= k < |tables| ensures tables[k].mod !in seen {
        if k > 0 { assert tables[k] == rest[k - 1]; }
      }
    }
  }

  /** Every import entry is read as its table. */
  predicate AllImports(bytes: seq<Byte>, pos: nat, tables: seq<ModuleTable>) {
    forall k :: 0 <= k < |tables| ==> ImportSays(bytes, InfoPlace(pos, k), tables[k])
  }

  lemma ShiftedImports(bytes: seq<Byte>, pos: nat, next: nat, tables: seq<ModuleTable>)
    requires tables != [] && next == pos + 8
    ensures AllImports(bytes, pos, tables)
       <==> ImportSays(bytes, pos, tables[0]) && AllImports(bytes, next, tables[1..])
  {
    var rest := tables[1..];
    assert InfoPlace(pos, 0) == pos;
    assert forall k :: 0 <= k < |rest| ==> rest[k] == tables[k + 1] && InfoPlace(next, k) == InfoPlace(pos, k + 1);
    if ImportSays(bytes, pos, tables[0]) && AllImports(bytes, next, rest) {
      forall k | 0 <= k < |tables| ensures ImportSays(bytes, InfoPlace(pos, k), tables[k]) {
        if k > 0 { assert ImportSays(bytes, InfoPlace(next, k - 1), rest[k - 1]); }
      }
    }
  }

  lemma ImportsSome(bytes: seq<Byte>, pos: nat, count: nat, seen: set<nat>, tables: seq<ModuleTable>)
    requires count > 0
    ensures ParseImports(bytes, pos, count, seen) == Some(tables)
       <==> && pos + 8 <= |bytes| && tables != [] && tables[0].mod == Get32(bytes, pos) && tables[0].mod !in seen
            && ParseTable(bytes, Get32(bytes, pos + 4)) == Some(tables[0].table)
            && ParseImports(bytes, pos + 8, count - 1, seen + {tables[0].mod}) == Some(tables[1..])
  {
    if pos + 8 <= |bytes| && tables != [] { assert tables == [tables[0]] + tables[1..]; }
  }

  lemma {:induction false} ImportsIff(bytes: seq<Byte>, pos: nat, count: nat, seen: set<nat>, tables: seq<ModuleTable>)
    ensures ParseImports(bytes, pos, count, seen) == Some(tables)
       <==> |tables| == count && AllImports(bytes, pos, tables) && NewModules(tables, seen)
    decreases count
  {
    if count > 0 {
      ImportsSome(bytes, pos, count, seen, tables);
      if tables != [] {
        var next := pos + 8;
        ImportsIff(bytes, next, count - 1, seen + {tables[0].mod}, tables[1..]);
        if pos + 8 <= |bytes| { ImportIff(bytes, pos, tables[0]); }
        ShiftedImports(bytes, pos, next, tables);
        NewFirst(tables, seen);
      }
    }
  }

  lemma HeaderIff(bytes: seq<Byte>, alignment: nat, bssAlign: nat, h: Header, count: nat)
    ensures ParseHeader(bytes, alignment, bssAlign) == Some((h, count))
       <==> HeaderSays(bytes, h, alignment, bssAlign) && count == Get32(bytes, 12)
  {
  }

  /** How many entries an import table of that size has: its last one may be cut off. */
  lemma EntryCount(size: nat, n: nat)
    ensures n == (size + 7) / 8 <==> 8 * n - 8 < size <= 8 * n
  {
  }

  /** The header, the sections and the tables of the file are read one after the other. */
  lemma ParseParts(bytes: seq<Byte>, alignment: nat, bssAlign: nat, image: Image)
    ensures ParseRel(bytes, alignment, bssAlign) == Some(image)
       <==> && |bytes| >= 64 && ParseHeader(bytes, alignment, bssAlign) == Some((image.header, Get32(bytes, 12)))
            && ParseSections(bytes, image.header.sectionInfoOffset, Get32(bytes, 12)) == Some(image.sections)
            && ParseImports(bytes, image.header.impOffset, (image.header.impSize + 7) / 8, {}) == Some(image.tables)
  {
  }

  /** A file is read as an object exactly when its bytes say what is in the object. */
  lemma ReadMeaning(bytes: seq<Byte>, alignment: nat, bssAlign: nat, image: Image)
    ensures ParseRel(bytes, alignment, bssAlign) == Some(image) <==> FileSays(bytes, image, alignment, bssAlign)
  {
    ParseParts(bytes, alignment, bssAlign, image);
    if |bytes| >= 64 {
      HeaderIff(bytes, alignment, bssAlign, image.header, Get32(bytes, 12));
      SectionsIff(bytes, image.header.sectionInfoOffset, Get32(bytes, 12), image.sections);
      var n := (image.header.impSize + 7) / 8;
      ImportsIff(bytes, image.header.impOffset, n, {}, image.tables);
      EntryCount(image.header.impSize, |image.tables|);
    }
  }
}
