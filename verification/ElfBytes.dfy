/** The bytes of a written ELF object, stated on the sections that were given: what stands in the file header, in every
    section header, and in the contents of every section. */
module ElfBytes {
  import opened Bytes
  import opened ElfCodec
  import opened ElfFile
  import opened ElfReader
  import opened ElfRoundTrip
  import opened ElfStrings
  import opened RelTypes
  import opened Utf8Text
  import opened Wrappers

  // ----- what is written -----

  /** What `Elf.ToBytes` returns for these fields and sections. */
  predicate Written(file: seq<Byte>, kind: int, machine: int, entry: int, flags: int, secs: seq<ElfSection>,
                    shstrndx: int, strndx: int)
  {
    var linked := LinkedAll(secs, shstrndx, strndx);
    var fh := HeaderOf(kind, machine, entry, flags, linked, shstrndx);
    FileFits(fh, linked) && file == FileImage(fh, linked)
  }

  /** Both string tables are in the list. */
  predicate Tabled(secs: seq<ElfSection>, shstrndx: int, strndx: int) {
    TableAt(secs, shstrndx, ".shstrtab") && TableAt(secs, strndx, ".strtab")
  }

  /** The names of the sections that have one, in order. */
  function SectionNames(secs: seq<ElfSection>): seq<string> {
    if secs == [] then []
    else (if secs[0].name == "" then [] else [secs[0].name]) + SectionNames(secs[1..])
  }

  function EntryNames(entries: seq<Entry>): seq<string> {
    if entries == [] then []
    else (if entries[0].sym.name == "" then [] else [entries[0].sym.name]) + EntryNames(entries[1..])
  }

  /** The names of the symbols of all symbol tables, in order. */
  function SymbolNames(secs: seq<ElfSection>): seq<string> {
    if secs == [] then []
    else (if secs[0].body.Symbols? then EntryNames(secs[0].body.entries) else []) + SymbolNames(secs[1..])
  }

  // ----- the statements -----

  /** The 52 bytes at the start of the file. */
  predicate StartSays(file: seq<Byte>, kind: int, machine: int, entry: int, flags: int, count: nat, shstrndx: int,
                      headers: nat)
  {
    && |file| >= 52 && file[..16] == [0x7F, 0x45, 0x4C, 0x46, 1, 2, 1, 0, 0, 0, 0, 0, 0, 0, 0, 0]
    && Get16(file, 16) == kind && Get16(file, 18) == machine
    && Get32(file, 20) == 1 && Get32(file, 24) == entry && Get32(file, 28) == 0 && Get32(file, 32) == headers
    && Get32(file, 36) == flags
    && Get16(file, 40) == 52 && Get16(file, 42) == 32 && Get16(file, 44) == 0
    && Get16(file, 46) == 40 && Get16(file, 48) == count && Get16(file, 50) == shstrndx
  }

  /** `n` is the index of the last local symbol, counting from 1, or 0 if there is none. */
  predicate IsLastLocal(entries: seq<Entry>, n: int) {
    && 0 <= n <= |entries| && (n > 0 ==> entries[n - 1].sym.bind == 0)
    && forall i :: n <= i < |entries| ==> entries[i].sym.bind != 0
  }

  /** The words for a section of the header at `at`, but for its name and for where its contents are: the fields as
      given, except those that the writer sets for symbol tables and relocations. */
  predicate HeaderSays(file: seq<Byte>, at: nat, sec: ElfSection, strndx: int) {
    var h := sec.header;
    && at + 40 <= |file|
    && Get32(file, at + 4) == h.kind && Get32(file, at + 8) == h.flags && Get32(file, at + 12) == h.addr
    && Get32(file, at + 32) == h.align
    && match sec.body
       case Symbols(entries) =>
         && Get32(file, at + 24) == strndx && IsLastLocal(entries, Get32(file, at + 28) - 1)
         && Get32(file, at + 36) == 16
       case Relas(_) => Get32(file, at + 24) == h.link && Get32(file, at + 28) == h.info && Get32(file, at + 36) == 12
       case _ => Get32(file, at + 24) == h.link && Get32(file, at + 28) == h.info && Get32(file, at + 36) == h.entsize
  }

  /** How many bytes the contents take. */
  function TableSize(strs: seq<string>): nat {
    if strs == [] then 2 else Place(strs, |strs|)
  }

  function ContentSize(secs: seq<ElfSection>, i: nat, shstrndx: int, strndx: int): nat
    requires i < |secs|
  {
    if i == shstrndx then TableSize(SectionNames(secs))
    else if i == strndx then TableSize(SymbolNames(secs))
    else
      match secs[i].body
      case Raw(d) => |d|
      case Table(strs) => TableSize(strs)
      case Symbols(entries) => 16 * (|entries| + 1)
      case Relas(relas) => 12 * |relas|
  }

  /** The header's offset and size: where the contents are, for a NULL section 0; and how long they are, or what was
      given if there are none. */
  predicate ContentsAt(file: seq<Byte>, at: nat, sec: ElfSection, pos: nat, size: nat) {
    && at + 40 <= |file| && Get32(file, at + 16) == (if sec.header.kind == 0 then 0 else pos)
    && Get32(file, at + 20) == if size > 0 then size else sec.header.size
  }

  /** The contents follow each other from 52 on, each at the next multiple of 4. */
  predicate Packed(pos: seq<nat>, secs: seq<ElfSection>, shstrndx: int, strndx: int) {
    |pos| == |secs| + 1 && pos[0] == 52 && forall i :: 0 <= i < |secs| ==> Follows(pos, secs, i, shstrndx, strndx)
  }

  predicate Follows(pos: seq<nat>, secs: seq<ElfSection>, i: nat, shstrndx: int, strndx: int)
    requires i < |secs| && |pos| == |secs| + 1
  {
    var end := pos[i] + ContentSize(secs, i, shstrndx, strndx);
    end <= pos[i + 1] < end + 4 && pos[i + 1] % 4 == 0
  }

  /** The strings stand in the file from `pos` on: a NUL, then each string with a NUL behind it. */
  predicate StringsStand(file: seq<Byte>, pos: nat, strs: seq<string>) {
    && pos + 2 <= |file| && file[pos] == 0 && (strs == [] ==> file[pos + 1] == 0)
    && forall k :: 0 <= k < |strs| ==> At(file, pos + Place(strs, k), Utf8(strs[k]) + [0])
  }

  /** A symbol at `p`: its five fields, and an offset that denotes its name. */
  predicate SymbolStands(file: seq<Byte>, p: nat, s: Symbol, strs: seq<string>) {
    && p + 16 <= |file| && AtOffset(strs, Get32(file, p)) == s.name
    && Get32(file, p + 4) == s.value && Get32(file, p + 8) == s.size
    && file[p + 12] == s.bind * 16 + s.symType && file[p + 13] == s.other && Get16(file, p + 14) == s.shndx
  }

  /** A relocation at `p`; a negative addend in two's complement. */
  predicate RelaStands(file: seq<Byte>, p: nat, r: Rela) {
    && p + 12 <= |file| && Get32(file, p) == r.offset && Get32(file, p + 4) == r.sym * 256 + r.kind
    && Get32(file, p + 8) == if r.addend >= 0 then r.addend else r.addend + 0x1_0000_0000
  }

  function SymbolPlace(pos: nat, j: nat): nat {
    pos + 16 * (j + 1)
  }

  function RelaPlace(pos: nat, j: nat): nat {
    pos + 12 * j
  }

  /** The contents of a section at `pos`: data as they are, strings, 16 zeros and the symbols, or the relocations. */
  predicate BodyStands(file: seq<Byte>, pos: nat, b: Body, strs: seq<string>) {
    match b
    case Raw(d) => At(file, pos, d)
    case Table(own) => StringsStand(file, pos, own)
    case Symbols(entries) =>
      && At(file, pos, Zeros(16))
      && forall j :: 0 <= j < |entries| ==> SymbolStands(file, SymbolPlace(pos, j), entries[j].sym, strs)
    case Relas(relas) => forall j :: 0 <= j < |relas| ==> RelaStands(file, RelaPlace(pos, j), relas[j])
  }

  /** The contents of section `i`: those of the two string tables are the names that were linked. */
  predicate ContentsStand(file: seq<Byte>, pos: nat, secs: seq<ElfSection>, i: nat, shstrndx: int, strndx: int)
    requires i < |secs|
  {
    if i == shstrndx then StringsStand(file, pos, SectionNames(secs))
    else if i == strndx then StringsStand(file, pos, SymbolNames(secs))
    else BodyStands(file, pos, secs[i].body, SymbolNames(secs))
  }

  // ----- the names in the string tables -----

  lemma {:induction false} NamesAre(secs: seq<ElfSection>, names: seq<string>)
    ensures AllNames(secs, names) == names + SectionNames(secs)
    decreases |secs|
  {
    if secs != [] { NamesAre(secs[1..], AddedTo(names, secs[0].name)); }
  }

  lemma {:induction false} EntriesAre(entries: seq<Entry>, strs: seq<string>)
    ensures EntriesAfter(entries, strs) == strs + EntryNames(entries)
    decreases |entries|
  {
    if entries != [] { EntriesAre(entries[1..], AddedTo(strs, entries[0].sym.name)); }
  }

  lemma {:induction false} StringsAre(secs: seq<ElfSection>, strs: seq<string>)
    ensures AllStrings(secs, strs) == strs + SymbolNames(secs)
    decreases |secs|
  {
    if secs != [] {
      var next, rest := StringsAfter(secs[0], strs), SymbolNames(secs[1..]);
      StringsAre(secs[1..], next);
      if secs[0].body.Symbols? {
        var here := EntryNames(secs[0].body.entries);
        EntriesAre(secs[0].body.entries, strs);
        Regrouped(strs, here, rest);
      } else {
        assert [] + rest == rest;
      }
    }
  }

  lemma Regrouped(a: seq<string>, b: seq<string>, c: seq<string>)
    ensures (a + b) + c == a + (b + c)
  {
  }

  // ----- linking, section by section -----

  /** Linking sets the names, and the link of a symbol table; every name is denoted by its offset. */
  predicate LinksTo(before: ElfSection, after: ElfSection, strndx: int, names: seq<string>, strs: seq<string>) {
    && after.header.name >= 0 && AtOffset(names, after.header.name) == before.name
    && after.header == before.header.(name := after.header.name,
                                      link := if before.body.Symbols? then strndx else before.header.link)
    && match before.body
       case Symbols(entries) => after.body.Symbols? && EntriesLink(entries, after.body.entries, strs)
       case b => after.body == b
  }

  predicate EntriesLink(before: seq<Entry>, after: seq<Entry>, strs: seq<string>) {
    && |after| == |before|
    && forall j :: 0 <= j < |before| ==>
         && after[j].sym == before[j].sym && after[j].stName >= 0
         && AtOffset(strs, after[j].stName) == before[j].sym.name
  }

  lemma {:induction false} EntriesLinkTo(entries: seq<Entry>, strs: seq<string>, final: seq<string>)
    requires EntriesAfter(entries, strs) <= final
    ensures EntriesLink(entries, LinkEntries(entries, strs), final)
    decreases |entries|
  {
    if entries != [] {
      var next := AddedTo(strs, entries[0].sym.name);
      EntriesGrow(entries[1..], next);
      OffsetDenotes(strs, entries[0].sym.name, final);
      EntriesLinkTo(entries[1..], next, final);
    }
  }

  lemma {:induction false} NamesGrow(secs: seq<ElfSection>, names: seq<string>)
    ensures names <= AllNames(secs, names)
    decreases |secs|
  {
    if secs != [] { NamesGrow(secs[1..], AddedTo(names, secs[0].name)); }
  }

  lemma {:induction false} SectionsLinkTo(secs: seq<ElfSection>, strndx: int, names: seq<string>, strs: seq<string>,
                                          allNames: seq<string>, allStrs: seq<string>)
    requires AllNames(secs, names) <= allNames && AllStrings(secs, strs) <= allStrs
    ensures forall i :: 0 <= i < |secs| ==>
              LinksTo(secs[i], Linked(secs, strndx, names, strs)[i], strndx, allNames, allStrs)
    decreases |secs|
  {
    if secs != [] {
      var moreNames, moreStrs := AddedTo(names, secs[0].name), StringsAfter(secs[0], strs);
      NamesGrow(secs[1..], moreNames);
      StringsGrow(secs[1..], moreStrs);
      SectionLinksTo(secs[0], strndx, names, strs, allNames, allStrs);
      SectionsLinkTo(secs[1..], strndx, moreNames, moreStrs, allNames, allStrs);
    }
  }

  lemma SectionLinksTo(sec: ElfSection, strndx: int, names: seq<string>, strs: seq<string>, allNames: seq<string>,
                       allStrs: seq<string>)
    requires AddedTo(names, sec.name) <= allNames && StringsAfter(sec, strs) <= allStrs
    ensures LinksTo(sec, LinkSection(sec, strndx, names, strs), strndx, allNames, allStrs)
  {
    OffsetDenotes(names, sec.name, allNames);
    if sec.body.Symbols? { EntriesLinkTo(sec.body.entries, strs, allStrs); }
  }

  /** The sections as they are written. */
  predicate Ready(secs: seq<ElfSection>, linked: seq<ElfSection>, i: nat, shstrndx: int, strndx: int)
    requires i < |secs| == |linked|
  {
    if i == shstrndx then
      linked[i].body == Table(SectionNames(secs)) && HeaderLinks(secs[i], linked[i], SectionNames(secs))
    else if i == strndx then
      linked[i].body == Table(SymbolNames(secs)) && HeaderLinks(secs[i], linked[i], SectionNames(secs))
    else LinksTo(secs[i], linked[i], strndx, SectionNames(secs), SymbolNames(secs))
  }

  /** A string table gets a name and nothing else in its header. */
  predicate HeaderLinks(before: ElfSection, after: ElfSection, names: seq<string>) {
    && after.header.name >= 0 && AtOffset(names, after.header.name) == before.name
    && after.header == before.header.(name := after.header.name)
  }

  /** Different tables, so that neither takes the place of the other. */
  lemma TablesApart(secs: seq<ElfSection>, shstrndx: int, strndx: int)
    requires Tabled(secs, shstrndx, strndx)
    ensures 0 < shstrndx < |secs| && 0 < strndx < |secs| && shstrndx != strndx
    ensures secs[shstrndx].body.Table? && secs[strndx].body.Table?
  {
    assert secs[shstrndx].name != secs[strndx].name;
  }

  lemma ReadyFrom(sec: ElfSection, linked: ElfSection, final: ElfSection, strndx: int, names: seq<string>,
                  strs: seq<string>, table: seq<string>)
    requires LinksTo(sec, linked, strndx, names, strs) && sec.body.Table? && final == linked.(body := Table(table))
    ensures final.body == Table(table) && HeaderLinks(sec, final, names)
  {
  }

  lemma AllReady(secs: seq<ElfSection>, shstrndx: int, strndx: int, i: nat)
    requires Tabled(secs, shstrndx, strndx) && i < |secs|
    ensures Ready(secs, LinkedAll(secs, shstrndx, strndx), i, shstrndx, strndx)
  {
    TablesApart(secs, shstrndx, strndx);
    NamesAre(secs, []);
    StringsAre(secs, []);
    LinkedReady(secs, Linked(secs, strndx, [], []), i, shstrndx, strndx);
  }

  lemma LinkedReady(secs: seq<ElfSection>, linked: seq<ElfSection>, i: nat, shstrndx: nat, strndx: nat)
    requires i < |secs| && shstrndx < |secs| && strndx < |secs| && shstrndx != strndx
    requires secs[shstrndx].body.Table? && secs[strndx].body.Table? && linked == Linked(secs, strndx, [], [])
    requires AllNames(secs, []) == SectionNames(secs) && AllStrings(secs, []) == SymbolNames(secs)
    ensures Ready(secs, WithTable(WithTable(linked, shstrndx, SectionNames(secs)), strndx, SymbolNames(secs)), i,
                  shstrndx, strndx)
  {
    var names, strs := SectionNames(secs), SymbolNames(secs);
    SectionsLinkTo(secs, strndx, [], [], names, strs);
    FinalReady(secs, linked, WithTable(WithTable(linked, shstrndx, names), strndx, strs), i, shstrndx, strndx);
  }

  lemma FinalReady(secs: seq<ElfSection>, linked: seq<ElfSection>, final: seq<ElfSection>, i: nat, shstrndx: nat,
                   strndx: nat)
    requires i < |secs| == |linked| == |final|
    requires LinksTo(secs[i], linked[i], strndx, SectionNames(secs), SymbolNames(secs))
    requires i == shstrndx ==> secs[i].body.Table? && final[i] == linked[i].(body := Table(SectionNames(secs)))
    requires i == strndx && i != shstrndx ==>
               secs[i].body.Table? && final[i] == linked[i].(body := Table(SymbolNames(secs)))
    requires i != shstrndx && i != strndx ==> final[i] == linked[i]
    ensures Ready(secs, final, i, shstrndx, strndx)
  {
    var names, strs := SectionNames(secs), SymbolNames(secs);
    if i == shstrndx {
      ReadyFrom(secs[i], linked[i], final[i], strndx, names, strs, names);
    } else if i == strndx {
      ReadyFrom(secs[i], linked[i], final[i], strndx, names, strs, strs);
    }
  }

  // ----- contents -----

  lemma EmitSize(strs: seq<string>)
    ensures |Emit(strs)| == TableSize(strs)
  {
    if strs != [] {
      JoinIsCells(strs);
      CellsSize(strs, |strs|);
      assert strs[..|strs|] == strs;
    }
  }

  lemma {:induction false} CellsSize(strs: seq<string>, k: nat)
    requires k <= |strs|
    ensures |CellBytes(strs[..k])| + 1 == Place(strs, k)
  {
    if k > 0 {
      CellsSize(strs, k - 1);
      assert strs[..k] == strs[..k - 1] + [strs[k - 1]];
      CellsSnoc(strs[..k - 1], strs[k - 1]);
    }
  }

  lemma {:induction false} CellsSnoc(strs: seq<string>, s: string)
    ensures CellBytes(strs + [s]) == CellBytes(strs) + (Utf8(s) + [0])
  {
    if strs == [] {
      assert [s][1..] == [];
    } else {
      assert (strs + [s])[1..] == strs[1..] + [s];
      CellsSnoc(strs[1..], s);
    }
  }

  lemma AtWithin(file: seq<Byte>, pos: nat, chunk: seq<Byte>, k: nat, part: seq<Byte>)
    requires At(file, pos, chunk) && At(chunk, k, part)
    ensures At(file, pos + k, part)
  {
    forall i | 0 <= i < |part| ensures file[pos + k + i] == part[i] {
      AtIndex(file, pos, chunk, k + i);
      AtIndex(chunk, k, part, i);
    }
  }

  lemma TableStands(file: seq<Byte>, pos: nat, strs: seq<string>)
    requires At(file, pos, Emit(strs))
    ensures StringsStand(file, pos, strs)
  {
    AtIndex(file, pos, Emit(strs), 0);
    AtIndex(file, pos, Emit(strs), 1);
    forall k | 0 <= k < |strs| ensures At(file, pos + Place(strs, k), Utf8(strs[k]) + [0]) {
      EmitHolds(strs, k);
      AtWithin(file, pos, Emit(strs), Place(strs, k), Utf8(strs[k]) + [0]);
    }
  }

  lemma {:induction false} SymbolAt(file: seq<Byte>, pos: nat, entries: seq<Entry>, j: nat, p: nat)
    requires At(file, pos, SymbolBytes(entries)) && j < |entries| && p == pos + 16 * j
    ensures At(file, p, PackSymbol(entries[j].stName, entries[j].sym))
    decreases j
  {
    AtRest(file, pos, PackSymbol(entries[0].stName, entries[0].sym), SymbolBytes(entries[1..]), pos + 16);
    if j > 0 { SymbolAt(file, pos + 16, entries[1..], j - 1, p); }
  }

  lemma SymbolFields(file: seq<Byte>, p: nat, stName: int, s: Symbol, strs: seq<string>)
    requires At(file, p, PackSymbol(stName, s)) && SymbolFits(stName, s) && AtOffset(strs, stName) == s.name
    ensures SymbolStands(file, p, s, strs)
  {
    SymbolReadsBack(file, p, stName, s);
  }

  lemma SymbolsStand(file: seq<Byte>, pos: nat, before: seq<Entry>, after: seq<Entry>, strs: seq<string>)
    requires At(file, pos, BodyBytes(Symbols(after))) && BodyFits(Symbols(after)) && EntriesLink(before, after, strs)
    ensures At(file, pos, Zeros(16))
    ensures forall j :: 0 <= j < |before| ==> SymbolStands(file, SymbolPlace(pos, j), before[j].sym, strs)
  {
    NullSymbol();
    AtRest(file, pos, Zeros(16), SymbolBytes(after), pos + 16);
    forall j | 0 <= j < |before| ensures SymbolStands(file, SymbolPlace(pos, j), before[j].sym, strs) {
      SymbolStandsAt(file, pos + 16, before, after, j, strs, SymbolPlace(pos, j));
    }
  }

  lemma SymbolStandsAt(file: seq<Byte>, pos: nat, before: seq<Entry>, after: seq<Entry>, j: nat, strs: seq<string>,
                       p: nat)
    requires At(file, pos, SymbolBytes(after)) && EntriesLink(before, after, strs) && j < |before| && p == pos + 16 * j
    requires SymbolFits(after[j].stName, after[j].sym)
    ensures SymbolStands(file, p, before[j].sym, strs)
  {
    SymbolAt(file, pos, after, j, p);
    SymbolFields(file, p, after[j].stName, after[j].sym, strs);
  }

  lemma NullSymbol()
    ensures PackSymbol(0, Symbol("", 0, 0, 0, 0, 0, 0)) == Zeros(16)
  {
    var three: seq<U32> := [0, 0, 0];
    assert three[1..] == [0, 0] && three[1..][1..] == [0];
    assert PackWords([0]) == Pack32(0) + [] && PackWords([0, 0]) == Pack32(0) + PackWords([0]);
    assert PackWords(three) == Zeros(12);
  }

  lemma {:induction false} RelaAt(file: seq<Byte>, pos: nat, relas: seq<Rela>, j: nat, p: nat)
    requires At(file, pos, RelaBytes(relas)) && j < |relas| && p == pos + 12 * j
    ensures At(file, p, PackRela(relas[j]))
    decreases j
  {
    AtRest(file, pos, PackRela(relas[0]), RelaBytes(relas[1..]), pos + 12);
    if j > 0 { RelaAt(file, pos + 12, relas[1..], j - 1, p); }
  }

  lemma RelaWords(file: seq<Byte>, p: nat, r: Rela)
    requires At(file, p, PackRela(r)) && RelaFits(r)
    ensures RelaStands(file, p, r)
  {
    RelaReadsBack(file, p, r);
  }

  lemma RelaStandsAt(file: seq<Byte>, pos: nat, bytes: seq<Byte>, relas: seq<Rela>, j: nat, p: nat)
    requires At(file, pos, bytes) && bytes == RelaBytes(relas) && j < |relas| && RelaFits(relas[j]) && p == pos + 12 * j
    ensures RelaStands(file, p, relas[j])
  {
    RelaAt(file, pos, relas, j, p);
    RelaWords(file, p, relas[j]);
  }

  lemma RelasStand(file: seq<Byte>, pos: nat, bytes: seq<Byte>, relas: seq<Rela>)
    requires At(file, pos, bytes) && bytes == RelaBytes(relas) && forall j :: 0 <= j < |relas| ==> RelaFits(relas[j])
    ensures forall j :: 0 <= j < |relas| ==> RelaStands(file, RelaPlace(pos, j), relas[j])
  {
    forall j | 0 <= j < |relas| ensures RelaStands(file, RelaPlace(pos, j), relas[j]) {
      assert RelaFits(relas[j]);
      RelaStandsAt(file, pos, bytes, relas, j, RelaPlace(pos, j));
    }
  }

  /** The bytes of the linked section are the contents that were promised. */
  lemma ReadyStands(file: seq<Byte>, pos: nat, secs: seq<ElfSection>, linked: seq<ElfSection>, i: nat, shstrndx: int,
                    strndx: int)
    requires i < |secs| == |linked| && Ready(secs, linked, i, shstrndx, strndx)
    requires At(file, pos, BodyBytes(linked[i].body)) && BodyFits(linked[i].body)
    ensures ContentsStand(file, pos, secs, i, shstrndx, strndx)
    ensures |BodyBytes(linked[i].body)| == ContentSize(secs, i, shstrndx, strndx)
  {
    if linked[i].body.Table? {
      TableStands(file, pos, linked[i].body.strs);
      EmitSize(linked[i].body.strs);
    } else {
      match secs[i].body
      case Symbols(entries) =>
        SymbolsStand(file, pos, entries, linked[i].body.entries, SymbolNames(secs));
      case Relas(relas) => RelasStand(file, pos, RelaBytes(relas), relas);
      case _ =>
    }
  }

  // ----- headers -----

  lemma HeaderWordsStand(file: seq<Byte>, at: nat, h: SectionHeader)
    requires At(file, at, PackHeader(h)) && HeaderFits(h)
    ensures at + 40 <= |file| && Get32(file, at) == h.name && Get32(file, at + 4) == h.kind
    ensures Get32(file, at + 8) == h.flags && Get32(file, at + 12) == h.addr && Get32(file, at + 16) == h.offset
    ensures Get32(file, at + 20) == h.size && Get32(file, at + 24) == h.link && Get32(file, at + 28) == h.info
    ensures Get32(file, at + 32) == h.align && Get32(file, at + 36) == h.entsize
  {
    HeaderReadsBack(file, at, h);
  }

  lemma SameLastLocal(before: seq<Entry>, after: seq<Entry>, strs: seq<string>)
    requires EntriesLink(before, after, strs)
    ensures IsLastLocal(before, LastLocal(after))
  {
  }

  lemma ReadyHeader(file: seq<Byte>, at: nat, secs: seq<ElfSection>, linked: seq<ElfSection>, i: nat, shstrndx: int,
                    strndx: int, pos: nat, h: SectionHeader)
    requires i < |secs| == |linked| && Ready(secs, linked, i, shstrndx, strndx)
    requires |BodyBytes(linked[i].body)| == ContentSize(secs, i, shstrndx, strndx)
    requires h == Placed(linked[i], pos).header && At(file, at, PackHeader(h)) && HeaderFits(h)
    requires secs[i].body.Table? || (i != shstrndx && i != strndx)
    ensures HeaderSays(file, at, secs[i], strndx)
    ensures ContentsAt(file, at, secs[i], pos, ContentSize(secs, i, shstrndx, strndx))
    ensures AtOffset(SectionNames(secs), Get32(file, at)) == secs[i].name
  {
    HeaderWordsStand(file, at, h);
    if secs[i].body.Symbols? { SameLastLocal(secs[i].body.entries, linked[i].body.entries, SymbolNames(secs)); }
  }

  // ----- the file -----

  function Positions(linked: seq<ElfSection>): (pos: seq<nat>)
    ensures |pos| == |linked| + 1
    ensures forall i {:trigger pos[i]} :: 0 <= i <= |linked| ==> pos[i] == DataPos(linked, i)
  {
    seq(|linked| + 1, i requires 0 <= i <= |linked| => DataPos(linked, i))
  }

  lemma PositionsEnds(linked: seq<ElfSection>, pos: seq<nat>, n: nat)
    requires pos == Positions(linked) && n == |linked|
    ensures |pos| == n + 1 && pos[0] == 52 && pos[n] == |Data(linked)|
  {
    assert linked[..n] == linked && linked[..0] == [];
  }

  /** The header of section `i`: the headers stand behind the contents, 40 bytes each. */
  function HeaderPlace(pos: seq<nat>, i: nat): nat
    requires pos != []
  {
    pos[|pos| - 1] + 40 * i
  }

  predicate SectionStands(file: seq<Byte>, pos: seq<nat>, secs: seq<ElfSection>, i: nat, shstrndx: int, strndx: int)
    requires i < |secs| && |pos| == |secs| + 1
  {
    var at := HeaderPlace(pos, i);
    && HeaderSays(file, at, secs[i], strndx) && AtOffset(SectionNames(secs), Get32(file, at)) == secs[i].name
    && ContentsAt(file, at, secs[i], pos[i], ContentSize(secs, i, shstrndx, strndx))
    && ContentsStand(file, pos[i], secs, i, shstrndx, strndx)
  }

  lemma SectionWritten(file: seq<Byte>, secs: seq<ElfSection>, linked: seq<ElfSection>, i: nat, shstrndx: int,
                       strndx: int, pos: nat, at: nat)
    requires i < |secs| == |linked| && Ready(secs, linked, i, shstrndx, strndx)
    requires secs[i].body.Table? || (i != shstrndx && i != strndx)
    requires Standing(file, linked, i) && BodyFits(linked[i].body) && HeaderFits(PlacedAll(linked)[i].header)
    requires pos == DataPos(linked, i) && at == HeaderPos(linked, i)
    ensures HeaderSays(file, at, secs[i], strndx) && AtOffset(SectionNames(secs), Get32(file, at)) == secs[i].name
    ensures ContentsAt(file, at, secs[i], pos, ContentSize(secs, i, shstrndx, strndx))
    ensures ContentsStand(file, pos, secs, i, shstrndx, strndx)
    ensures |BodyBytes(linked[i].body)| == ContentSize(secs, i, shstrndx, strndx)
  {
    PlacedIndex(linked, i, pos);
    ReadyStands(file, pos, secs, linked, i, shstrndx, strndx);
    ReadyHeader(file, at, secs, linked, i, shstrndx, strndx, pos, PlacedAll(linked)[i].header);
  }

  lemma PlaceNext(linked: seq<ElfSection>, i: nat)
    requires i < |linked|
    ensures var end := DataPos(linked, i) + |BodyBytes(linked[i].body)|;
            end <= DataPos(linked, i + 1) < end + 4 && DataPos(linked, i + 1) % 4 == 0
  {
    DataStep(linked, i);
  }

  lemma StartWords(file: seq<Byte>, kind: int, machine: int, entry: int, flags: int, linked: seq<ElfSection>,
                   shstrndx: int, headers: nat)
    requires var fh := HeaderOf(kind, machine, entry, flags, linked, shstrndx);
             FileHeaderFits(fh) && file == FileImage(fh, linked)
    requires headers == |Data(linked)|
    ensures StartSays(file, kind, machine, entry, flags, |linked|, shstrndx, headers)
    ensures |file| == headers + 40 * |linked|
  {
    ImageStarts(HeaderOf(kind, machine, entry, flags, linked, shstrndx), linked);
  }

  /** Section `i` of the list is linked, and in the file. */
  predicate Placed1(file: seq<Byte>, secs: seq<ElfSection>, linked: seq<ElfSection>, i: nat, shstrndx: int, strndx: int)
    requires i < |secs| == |linked|
  {
    && Ready(secs, linked, i, shstrndx, strndx) && (secs[i].body.Table? || (i != shstrndx && i != strndx))
    && Standing(file, linked, i) && BodyFits(linked[i].body) && HeaderFits(PlacedAll(linked)[i].header)
  }

  lemma ReadyHere(secs: seq<ElfSection>, shstrndx: int, strndx: int, i: nat)
    requires Tabled(secs, shstrndx, strndx) && i < |secs|
    ensures Ready(secs, LinkedAll(secs, shstrndx, strndx), i, shstrndx, strndx)
    ensures secs[i].body.Table? || (i != shstrndx && i != strndx)
  {
    TablesApart(secs, shstrndx, strndx);
    AllReady(secs, shstrndx, strndx, i);
  }

  /** What the image holds, in terms of the linked sections. */
  lemma ImageParts(file: seq<Byte>, kind: int, machine: int, entry: int, flags: int, secs: seq<ElfSection>,
                   shstrndx: int, strndx: int) returns (linked: seq<ElfSection>, headers: nat)
    requires Tabled(secs, shstrndx, strndx) && Written(file, kind, machine, entry, flags, secs, shstrndx, strndx)
    ensures |linked| == |secs| && headers == |Data(linked)| && |file| == headers + 40 * |secs|
    ensures StartSays(file, kind, machine, entry, flags, |secs|, shstrndx, headers)
    ensures forall i :: 0 <= i < |secs| ==> Placed1(file, secs, linked, i, shstrndx, strndx)
  {
    linked := LinkedAll(secs, shstrndx, strndx);
    headers := |Data(linked)|;
    StartWords(file, kind, machine, entry, flags, linked, shstrndx, headers);
    ImageHolds(HeaderOf(kind, machine, entry, flags, linked, shstrndx), linked);
    forall i | 0 <= i < |secs| ensures Placed1(file, secs, linked, i, shstrndx, strndx) {
      ReadyHere(secs, shstrndx, strndx, i);
    }
  }

  lemma SectionPlaced(file: seq<Byte>, secs: seq<ElfSection>, linked: seq<ElfSection>, i: nat, shstrndx: int,
                      strndx: int, pos: seq<nat>)
    requires i < |secs| == |linked| && Placed1(file, secs, linked, i, shstrndx, strndx)
    requires |pos| == |linked| + 1 && pos[i] == DataPos(linked, i) && pos[i + 1] == DataPos(linked, i + 1)
    requires HeaderPlace(pos, i) == HeaderPos(linked, i)
    ensures SectionStands(file, pos, secs, i, shstrndx, strndx) && Follows(pos, secs, i, shstrndx, strndx)
  {
    SectionWritten(file, secs, linked, i, shstrndx, strndx, pos[i], HeaderPlace(pos, i));
    PlaceNext(linked, i);
  }

  lemma AllPlaced(file: seq<Byte>, secs: seq<ElfSection>, linked: seq<ElfSection>, shstrndx: int, strndx: int,
                  pos: seq<nat>)
    requires |secs| == |linked| && pos == Positions(linked) && pos[0] == 52 && pos[|secs|] == |Data(linked)|
    requires forall i :: 0 <= i < |secs| ==> Placed1(file, secs, linked, i, shstrndx, strndx)
    ensures Packed(pos, secs, shstrndx, strndx)
    ensures forall i :: 0 <= i < |secs| ==> SectionStands(file, pos, secs, i, shstrndx, strndx)
  {
    forall i | 0 <= i < |secs|
      ensures SectionStands(file, pos, secs, i, shstrndx, strndx) && Follows(pos, secs, i, shstrndx, strndx)
    {
      SectionPlaced(file, secs, linked, i, shstrndx, strndx, pos);
    }
  }

  lemma AllPositions(file: seq<Byte>, secs: seq<ElfSection>, linked: seq<ElfSection>, shstrndx: int, strndx: int,
                     headers: nat) returns (pos: seq<nat>)
    requires |secs| == |linked| && headers == |Data(linked)|
    requires forall i :: 0 <= i < |secs| ==> Placed1(file, secs, linked, i, shstrndx, strndx)
    ensures Packed(pos, secs, shstrndx, strndx)
    ensures HeaderPlace(pos, 0) == headers && HeaderPlace(pos, |secs|) == headers + 40 * |secs|
    ensures forall i :: 0 <= i < |secs| ==> SectionStands(file, pos, secs, i, shstrndx, strndx)
  {
    pos := Positions(linked);
    PositionsEnds(linked, pos, |linked|);
    AllPlaced(file, secs, linked, shstrndx, strndx, pos);
  }

  /** A written object: the file header, the contents of all sections one behind the other, and behind them their
      headers, each with what was given and with what the writer sets. */
  lemma ObjectWritten(file: seq<Byte>, kind: int, machine: int, entry: int, flags: int, secs: seq<ElfSection>,
                      shstrndx: int, strndx: int) returns (pos: seq<nat>)
    requires Tabled(secs, shstrndx, strndx) && Written(file, kind, machine, entry, flags, secs, shstrndx, strndx)
    ensures Packed(pos, secs, shstrndx, strndx)
    ensures StartSays(file, kind, machine, entry, flags, |secs|, shstrndx, HeaderPlace(pos, 0))
    ensures |file| == HeaderPlace(pos, |secs|)
    ensures forall i :: 0 <= i < |secs| ==> SectionStands(file, pos, secs, i, shstrndx, strndx)
  {
    var linked, headers := ImageParts(file, kind, machine, entry, flags, secs, shstrndx, strndx);
    pos := AllPositions(file, secs, linked, shstrndx, strndx, headers);
  }

  // ----- names in the bytes -----

  lemma {:induction false} FoundAt(strs: seq<string>, off: nat) returns (k: nat)
    requires off in Lookup(strs)
    ensures k < |strs| && Pos(strs[..k]) == off && strs[k] == Lookup(strs)[off]
    decreases |strs|
  {
    var front := strs[..|strs| - 1];
    if off == Pos(front) {
      k := |front|;
    } else {
      k := FoundAt(front, off);
      assert strs[..k] == front[..k];
    }
  }

  /** Among ASCII names, the name that an offset denotes is the one that stands there. */
  lemma PlaceOf(strs: seq<string>, off: nat, name: string) returns (k: nat)
    requires AtOffset(strs, off) == name && name != ""
    requires forall k :: 0 <= k < |strs| ==> Ascii(strs[k])
    ensures k < |strs| && strs[k] == name && Place(strs, k) == off
  {
    k := FoundAt(strs, off);
    OffsetIsPlace(strs, k);
  }

  lemma NameStands(file: seq<Byte>, pos: nat, strs: seq<string>, off: nat, name: string)
    requires StringsStand(file, pos, strs) && AtOffset(strs, off) == name && name != ""
    requires forall k :: 0 <= k < |strs| ==> Ascii(strs[k])
    ensures At(file, pos + off, Utf8(name) + [0])
  {
    var k := PlaceOf(strs, off, name);
    assert At(file, pos + Place(strs, k), Utf8(strs[k]) + [0]);
  }

  // ----- reading any file -----

  /** What is cut out of the file for a section: nothing for a NOBITS section, and what there is at the file's end. */
  function Cut(data: seq<Byte>, kind: nat, offset: nat, size: nat): seq<Byte> {
    if kind == 8 || offset >= |data| then []
    else if offset + size <= |data| then data[offset..offset + size]
    else data[offset..]
  }

  /** The contents that are read from the bytes of a section: by its type symbols behind the first, strings,
      relocations, or the bytes themselves. */
  predicate BodyRead(bytes: seq<Byte>, kind: nat, strs: seq<string>, b: Body) {
    if kind == 2 then
      && b.Symbols? && 16 * (|b.entries| + 1) >= |bytes|
      && forall j :: 0 <= j < |b.entries| ==> SymbolStands(bytes, SymbolPlace(0, j), b.entries[j].sym, strs)
    else if kind == 3 then b.Table? && ReadStrings(bytes) == Some(b.strs)
    else if kind == 4 then
      && b.Relas? && 12 * |b.relas| >= |bytes|
      && forall j :: 0 <= j < |b.relas| ==> RelaStands(bytes, RelaPlace(0, j), b.relas[j])
    else b == Raw(bytes)
  }

  /** The section that is read by the header at `at`. */
  predicate SectionRead(data: seq<Byte>, at: nat, strs: seq<string>, sec: ElfSection) {
    && at + 40 <= |data|
    && var kind := Get32(data, at + 4);
       var bytes := Cut(data, kind, Get32(data, at + 16), Get32(data, at + 20));
       && sec.header == SectionHeader(if kind in {2, 3, 4} then Get32(data, at) else -1, kind, Get32(data, at + 8),
                                      Get32(data, at + 12), Get32(data, at + 16), Get32(data, at + 20),
                                      Get32(data, at + 24), Get32(data, at + 28), Get32(data, at + 32),
                                      Get32(data, at + 36))
       && (kind in {0, 1, 2, 3, 4} ==> |bytes| == Get32(data, at + 20))
       && BodyRead(bytes, kind, strs, sec.body)
  }

  lemma {:induction false} SymbolsParsed(bytes: seq<Byte>, pos: nat, strs: seq<string>, entries: seq<Entry>, j: nat,
                                         p: nat)
    requires ParseSymbols(bytes, pos, strs) == Some(entries) && j < |entries| && p == pos + 16 * j
    ensures SymbolStands(bytes, p, entries[j].sym, strs)
    decreases j
  {
    if j > 0 { SymbolsParsed(bytes, pos + 16, strs, entries[1..], j - 1, p); }
  }

  lemma {:induction false} SymbolsReach(bytes: seq<Byte>, pos: nat, strs: seq<string>, entries: seq<Entry>)
    requires ParseSymbols(bytes, pos, strs) == Some(entries)
    ensures pos + 16 * |entries| >= |bytes|
    decreases |entries|
  {
    if entries != [] { SymbolsReach(bytes, pos + 16, strs, entries[1..]); }
  }

  lemma {:induction false} RelasParsed(bytes: seq<Byte>, pos: nat, relas: seq<Rela>, j: nat, p: nat)
    requires ParseRelas(bytes, pos) == Some(relas) && j < |relas| && p == pos + 12 * j
    ensures RelaStands(bytes, p, relas[j])
    decreases j
  {
    if j > 0 { RelasParsed(bytes, pos + 12, relas[1..], j - 1, p); }
  }

  lemma {:induction false} RelasReach(bytes: seq<Byte>, pos: nat, relas: seq<Rela>)
    requires ParseRelas(bytes, pos) == Some(relas)
    ensures pos + 12 * |relas| >= |bytes|
    decreases |relas|
  {
    if relas != [] { RelasReach(bytes, pos + 12, relas[1..]); }
  }

  lemma BodyLoaded(bytes: seq<Byte>, h: SectionHeader, strs: seq<string>, b: Body)
    requires 0 <= h.kind && LoadBody(h, bytes, strs) == Some(b)
    ensures BodyRead(bytes, h.kind, strs, b)
    ensures h.kind in {0, 1, 2, 3, 4} ==> |bytes| == h.size
  {
    match b
    case Symbols(entries) =>
      SymbolsReach(bytes, 16, strs, entries);
      forall j | 0 <= j < |entries| ensures SymbolStands(bytes, SymbolPlace(0, j), entries[j].sym, strs) {
        SymbolsParsed(bytes, 16, strs, entries, j, SymbolPlace(0, j));
      }
    case Relas(relas) =>
      RelasReach(bytes, 0, relas);
      forall j | 0 <= j < |relas| ensures RelaStands(bytes, RelaPlace(0, j), relas[j]) {
        RelasParsed(bytes, 0, relas, j, RelaPlace(0, j));
      }
    case _ =>
  }

  lemma {:induction false} SectionLoaded(data: seq<Byte>, fh: FileHeader, names: seq<string>, strs: seq<string>, i: nat,
                                         secs: seq<ElfSection>, k: nat, n: nat)
    requires fh.shoff >= 0 && fh.shentsize >= 0 && LoadSections(data, fh, names, strs, i) == Some(secs)
    requires k < |secs| && n == i + k
    ensures SectionNamed(data, fh, names, strs, n) == Some(secs[k])
    decreases k
  {
    if k > 0 { SectionLoaded(data, fh, names, strs, i + 1, secs[1..], k - 1, n); }
  }

  lemma {:induction false} LoadedCount(data: seq<Byte>, fh: FileHeader, names: seq<string>, strs: seq<string>, i: nat,
                                       secs: seq<ElfSection>)
    requires fh.shoff >= 0 && fh.shentsize >= 0 && LoadSections(data, fh, names, strs, i) == Some(secs)
    ensures |secs| == if i < fh.shnum then fh.shnum - i else 0
    decreases fh.shnum - i
  {
    if i < fh.shnum { LoadedCount(data, fh, names, strs, i + 1, secs[1..]); }
  }

  /** Where the header of section `i` is looked for. */
  function HeaderIn(data: seq<Byte>, i: nat): nat
    requires |data| >= 52
  {
    Get32(data, 32) + i * Get16(data, 46)
  }

  lemma SectionFrom(data: seq<Byte>, fh: FileHeader, names: seq<string>, strs: seq<string>, i: nat, sec: ElfSection,
                    at: nat)
    requires fh.shoff >= 0 && fh.shentsize >= 0 && SectionNamed(data, fh, names, strs, i) == Some(sec)
    requires at == fh.shoff + i * fh.shentsize
    ensures NameAt(names, i) == Some(sec.name) && SectionRead(data, at, strs, sec)
  {
    var s := SectionAt(data, fh, i).value;
    HeaderParsed(data, at, s.0);
    BodyLoaded(s.1, s.0, strs, sec.body);
  }

  lemma HeaderParsed(data: seq<Byte>, at: nat, h: SectionHeader)
    requires ParseHeader(data, at) == Some(h)
    ensures at + 40 <= |data| && h.kind == Get32(data, at + 4)
    ensures h == SectionHeader(Get32(data, at), Get32(data, at + 4), Get32(data, at + 8), Get32(data, at + 12),
                               Get32(data, at + 16), Get32(data, at + 20), Get32(data, at + 24), Get32(data, at + 28),
                               Get32(data, at + 32), Get32(data, at + 36))
    ensures DataOf(data, h) == Cut(data, h.kind, Get32(data, at + 16), Get32(data, at + 20))
  {
  }

  /** The strings of a string table that is read by the header at `at`. */
  predicate StringsRead(data: seq<Byte>, at: nat, strs: seq<string>) {
    && at + 40 <= |data|
    && var bytes := Cut(data, Get32(data, at + 4), Get32(data, at + 16), Get32(data, at + 20));
       |bytes| == Get32(data, at + 20) && ReadStrings(bytes) == Some(strs)
  }

  lemma StringsFrom(data: seq<Byte>, fh: FileHeader, i: nat, strs: seq<string>, at: nat)
    requires fh.shoff >= 0 && fh.shentsize >= 0 && StringsAt(data, fh, i) == Some(strs)
    requires at == fh.shoff + i * fh.shentsize
    ensures StringsRead(data, at, strs)
  {
    HeaderParsed(data, at, SectionAt(data, fh, i).value.0);
  }

  lemma {:induction false} FirstNamed(names: seq<string>, shnum: int, name: string, i: nat, ndx: nat)
    requires FindName(names, shnum, name, i) == Some(ndx) && i >= 1
    ensures i <= ndx < shnum && ndx <= |names| && names[ndx - 1] == name
    ensures forall j :: i - 1 <= j < ndx - 1 ==> names[j] != name
    decreases shnum - i
  {
    if names[i - 1] != name { FirstNamed(names, shnum, name, i + 1, ndx); }
  }

  /** What the reader fills in, taken apart. */
  lemma ReadParts(data: seq<Byte>, image: Image) returns (fh: FileHeader, rest: seq<ElfSection>)
    requires ReadElf(data) == Some(image)
    ensures ParseFileHeader(data) == Some(fh) && image.header == fh && fh.shoff >= 0 && fh.shentsize >= 0
    ensures fh.shstrndx >= 0 && StringsAt(data, fh, fh.shstrndx) == Some(image.names)
    ensures FindName(image.names, fh.shnum, STRTAB, 0) == Some(image.strtabndx)
    ensures StringsAt(data, fh, image.strtabndx) == Some(image.strs)
    ensures image.sections == [NullSection()] + rest
    ensures LoadSections(data, fh, image.names, image.strs, 1) == Some(rest)
  {
    fh := ReadCommon(data).value.0;
    rest := LoadSections(data, fh, image.names, image.strs, 1).value;
  }

  lemma StartParsed(data: seq<Byte>, fh: FileHeader)
    requires ParseFileHeader(data) == Some(fh)
    ensures |data| >= 52 && fh.shoff == Get32(data, 32) && fh.shentsize == Get16(data, 46)
    ensures fh.shnum == Get16(data, 48) && fh.shstrndx == Get16(data, 50)
    ensures fh.ident == data[..16] && fh.kind == Get16(data, 16) && fh.machine == Get16(data, 18)
    ensures fh.version == Get32(data, 20) && fh.entry == Get32(data, 24) && fh.phoff == Get32(data, 28)
    ensures fh.flags == Get32(data, 36) && fh.ehsize == Get16(data, 40) && fh.phentsize == Get16(data, 42)
    ensures fh.phnum == Get16(data, 44)
  {
  }

  /** The string tables that are read: the section names from the section that the file header points to, the symbol
      names from the first section named .strtab. */
  lemma ReadTables(data: seq<Byte>, image: Image)
    requires ReadElf(data) == Some(image)
    ensures |data| >= 52 && StringsRead(data, HeaderIn(data, Get16(data, 50)), image.names)
    ensures StringsRead(data, HeaderIn(data, image.strtabndx), image.strs)
    ensures 1 <= image.strtabndx <= |image.names| && image.names[image.strtabndx - 1] == ".strtab"
    ensures forall j :: 0 <= j < image.strtabndx - 1 ==> image.names[j] != ".strtab"
  {
    var fh, rest := ReadParts(data, image);
    StartParsed(data, fh);
    StringsFrom(data, fh, fh.shstrndx, image.names, HeaderIn(data, fh.shstrndx));
    StringsFrom(data, fh, image.strtabndx, image.strs, HeaderIn(data, image.strtabndx));
    FirstNamed(image.names, fh.shnum, STRTAB, 1, image.strtabndx);
  }

  /** Whatever file can be read: one section for each of the headers that it counts, the first replaced by an empty one;
      the names are those of the name table, by number. */
  lemma ReadSection(data: seq<Byte>, image: Image, i: nat)
    requires ReadElf(data) == Some(image)
    ensures |data| >= 52 && image.sections != [] && image.sections[0] == NullSection()
    ensures |image.sections| == if Get16(data, 48) > 0 then Get16(data, 48) else 1
    ensures 1 <= i < |image.sections| ==> ReadAs(data, image.names, image.strs, i, image.sections[i])
  {
    var fh, rest := ReadParts(data, image);
    RestCount(data, fh, image.names, image.strs, rest);
    if 1 <= i < |image.sections| { RestRead(data, fh, image.names, image.strs, rest, i, rest[i - 1]); }
  }

  lemma RestCount(data: seq<Byte>, fh: FileHeader, names: seq<string>, strs: seq<string>, rest: seq<ElfSection>)
    requires ParseFileHeader(data) == Some(fh) && fh.shoff >= 0 && fh.shentsize >= 0
    requires LoadSections(data, fh, names, strs, 1) == Some(rest)
    ensures |data| >= 52 && 1 + |rest| == if Get16(data, 48) > 0 then Get16(data, 48) else 1
  {
    StartParsed(data, fh);
    LoadedCount(data, fh, names, strs, 1, rest);
  }

  /** Section `i` has its name by number, and is what its header and its bytes say. */
  predicate ReadAs(data: seq<Byte>, names: seq<string>, strs: seq<string>, i: nat, sec: ElfSection)
    requires |data| >= 52 && i >= 1
  {
    i <= |names| && sec.name == names[i - 1] && SectionRead(data, HeaderIn(data, i), strs, sec)
  }

  lemma RestRead(data: seq<Byte>, fh: FileHeader, names: seq<string>, strs: seq<string>, rest: seq<ElfSection>, i: nat,
                 sec: ElfSection)
    requires ParseFileHeader(data) == Some(fh) && fh.shoff >= 0 && fh.shentsize >= 0
    requires LoadSections(data, fh, names, strs, 1) == Some(rest) && 1 <= i <= |rest| && sec == rest[i - 1]
    ensures |data| >= 52 && ReadAs(data, names, strs, i, sec)
  {
    SectionLoaded(data, fh, names, strs, 1, rest, i - 1, i);
    StartParsed(data, fh);
    NamedRead(data, fh, names, strs, i, sec);
  }

  lemma NamedRead(data: seq<Byte>, fh: FileHeader, names: seq<string>, strs: seq<string>, i: nat, sec: ElfSection)
    requires |data| >= 52 && fh.shoff == Get32(data, 32) && fh.shentsize == Get16(data, 46) && i >= 1
    requires SectionNamed(data, fh, names, strs, i) == Some(sec)
    ensures ReadAs(data, names, strs, i, sec)
  {
    SectionFrom(data, fh, names, strs, i, sec, HeaderIn(data, i));
  }
}
