/** What comes back of an ELF object that was written and read again. */
module ElfRoundTrip {
  import opened Bytes
  import opened ElfCodec
  import opened ElfFile
  import opened ElfReader
  import opened ElfStrings
  import opened RelTypes
  import opened Wrappers

  // ----- where the parts of the file stand -----

  lemma AtMiddle(front: seq<Byte>, chunk: seq<Byte>, back: seq<Byte>)
    ensures At(front + chunk + back, |front|, chunk)
  {
    assert (front + chunk + back)[|front|..|front| + |chunk|] == chunk;
  }

  lemma AtLonger(file: seq<Byte>, a: seq<Byte>, b: seq<Byte>, pos: nat, chunk: seq<Byte>)
    requires At(file, pos, chunk)
    ensures At(file + a + b, pos, chunk)
  {
    AtBefore(file, a, pos, chunk);
    AtBefore(file + a, b, pos, chunk);
  }

  lemma DataUnfold(secs: seq<ElfSection>) returns (front: seq<Byte>, body: seq<Byte>, pad: seq<Byte>)
    requires secs != []
    ensures Data(secs) == front + body + pad
    ensures front == Data(secs[..|secs| - 1]) && body == BodyBytes(secs[|secs| - 1].body)
  {
    front, body := Data(secs[..|secs| - 1]), BodyBytes(secs[|secs| - 1].body);
    pad := Zeros(Pad(|front + body|));
  }

  lemma {:induction false} DataHolds(secs: seq<ElfSection>, i: nat)
    requires i < |secs|
    ensures At(Data(secs), |Data(secs[..i])|, BodyBytes(secs[i].body))
    decreases |secs|
  {
    var n := |secs|;
    var front, body, pad := DataUnfold(secs);
    if i < n - 1 {
      DataHolds(secs[..n - 1], i);
      assert secs[..n - 1][..i] == secs[..i] && secs[..n - 1][i] == secs[i];
      AtLonger(front, body, pad, |Data(secs[..i])|, BodyBytes(secs[i].body));
    } else {
      AtMiddle(front, body, pad);
    }
  }

  lemma {:induction false} HeaderTableHolds(secs: seq<ElfSection>, i: nat, at: nat)
    requires i < |secs| && at == 40 * i
    ensures At(HeaderTable(secs), at, PackHeader(secs[i].header))
    decreases |secs|
  {
    var n := |secs|;
    var front, last := HeaderTable(secs[..n - 1]), PackHeader(secs[n - 1].header);
    if i < n - 1 {
      HeaderTableHolds(secs[..n - 1], i, at);
      AtBefore(front, last, at, PackHeader(secs[i].header));
    } else {
      assert (front + last)[at..at + |last|] == last;
    }
  }

  /** Overwriting the first bytes keeps what stands behind them. */
  lemma AtOverwritten(data: seq<Byte>, header: seq<Byte>, pos: nat, chunk: seq<Byte>)
    requires At(data, pos, chunk) && |header| <= pos
    ensures |header| <= |data| && At(Overwritten(data, header), pos, chunk)
  {
    var patched := Overwritten(data, header);
    assert patched[pos..pos + |chunk|] == data[pos..pos + |chunk|];
  }

  function DataPos(linked: seq<ElfSection>, i: nat): nat
    requires i <= |linked|
  {
    |Data(linked[..i])|
  }

  function HeaderPos(linked: seq<ElfSection>, i: nat): nat {
    |Data(linked)| + 40 * i
  }

  /** The data and the header of section `i` stand in the file. */
  predicate Standing(file: seq<Byte>, linked: seq<ElfSection>, i: nat)
    requires i < |linked|
  {
    && At(file, DataPos(linked, i), BodyBytes(linked[i].body))
    && At(file, HeaderPos(linked, i), PackHeader(PlacedAll(linked)[i].header))
  }

  predicate AllStanding(file: seq<Byte>, linked: seq<ElfSection>) {
    forall i :: 0 <= i < |linked| ==> Standing(file, linked, i)
  }

  lemma DataStands(linked: seq<ElfSection>, table: seq<Byte>, i: nat, pos: nat)
    requires i < |linked| && pos == |Data(linked[..i])|
    ensures At(Data(linked) + table, pos, BodyBytes(linked[i].body))
  {
    DataHolds(linked, i);
    AtBefore(Data(linked), table, pos, BodyBytes(linked[i].body));
  }

  lemma HeaderStands(data: seq<Byte>, secs: seq<ElfSection>, i: nat, at: nat, pos: nat)
    requires i < |secs| && at == 40 * i && pos == |data| + at
    ensures At(data + HeaderTable(secs), pos, PackHeader(secs[i].header))
  {
    HeaderTableHolds(secs, i, at);
    AtAfter(data, HeaderTable(secs), at, PackHeader(secs[i].header), pos);
  }

  lemma StandingIn(linked: seq<ElfSection>, i: nat)
    requires i < |linked|
    ensures Standing(Data(linked) + HeaderTable(PlacedAll(linked)), linked, i)
  {
    DataStands(linked, HeaderTable(PlacedAll(linked)), i, DataPos(linked, i));
    HeaderStands(Data(linked), PlacedAll(linked), i, 40 * i, HeaderPos(linked, i));
  }

  lemma StandingOverwritten(file: seq<Byte>, header: seq<Byte>, linked: seq<ElfSection>, i: nat)
    requires i < |linked| && Standing(file, linked, i) && |header| == 52
    ensures |header| <= |file| && Standing(Overwritten(file, header), linked, i)
  {
    AtOverwritten(file, header, DataPos(linked, i), BodyBytes(linked[i].body));
    AtOverwritten(file, header, HeaderPos(linked, i), PackHeader(PlacedAll(linked)[i].header));
  }

  lemma ImageHolds(fh: FileHeader, linked: seq<ElfSection>)
    requires |fh.ident| == 16
    ensures AllStanding(FileImage(fh, linked), linked)
  {
    forall i | 0 <= i < |linked| ensures Standing(FileImage(fh, linked), linked, i) {
      StandingIn(linked, i);
      StandingOverwritten(Data(linked) + HeaderTable(PlacedAll(linked)), PackFileHeader(fh), linked, i);
    }
  }

  lemma ImageStarts(fh: FileHeader, linked: seq<ElfSection>)
    requires FileHeaderFits(fh)
    ensures ParseFileHeader(FileImage(fh, linked)) == Some(fh)
  {
    var header, file := PackFileHeader(fh), FileImage(fh, linked);
    assert file[0..|header|] == header;
    FileHeaderReadsBack(file, fh);
  }

  // ----- one section -----

  /** The names in the section can be told apart in a string table. */
  predicate Legible(sec: ElfSection) {
    match sec.body
    case Table(strs) => forall i :: 0 <= i < |strs| ==> PlainName(strs[i]) && strs[i] != ""
    case Symbols(entries) => forall i :: 0 <= i < |entries| ==> PlainName(entries[i].sym.name)
    case _ => true
  }

  /** Raw data come back from a section of a type without contents only if there are none, and from a NULL section,
      whose data are looked for at offset 0, only if the file begins with them. Where there are none, the header must
      not promise any. */
  predicate RawSurvives(file: seq<Byte>, kind: int, size: int, d: seq<Byte>) {
    && kind !in {SHT_SYMTAB, SHT_STRTAB, SHT_RELA}
    && (kind == SHT_NOBITS ==> d == [])
    && (kind == SHT_NULL ==> At(file, 0, d))
    && (kind != SHT_NOBITS && d == [] ==> size == 0)
  }

  /** What the section holds can be read from the file. */
  predicate Survives(file: seq<Byte>, sec: ElfSection) {
    var kind := sec.header.kind;
    match sec.body
    case Raw(d) => RawSurvives(file, kind, sec.header.size, d)
    case Table(_) => kind == SHT_STRTAB
    case Symbols(_) => kind == SHT_SYMTAB
    case Relas(relas) => kind == SHT_RELA && (relas == [] ==> sec.header.size == 0)
  }

  /** What is read of the section's data. */
  function ReadBytes(sec: ElfSection): seq<Byte> {
    if sec.header.kind == SHT_NOBITS then [] else BodyBytes(sec.body)
  }

  lemma ClipAt(data: seq<Byte>, pos: nat, chunk: seq<Byte>)
    requires At(data, pos, chunk)
    ensures Clip(data, pos, pos + |chunk|) == chunk
  {
  }

  /** Where the header of a section points to, and how much it promises there. */
  lemma PlacedFields(linked: seq<ElfSection>, i: nat)
    requires i < |linked|
    ensures var sec, h := linked[i], PlacedAll(linked)[i].header;
            && h.kind == sec.header.kind
            && h.size == (if BodyBytes(sec.body) != [] then |BodyBytes(sec.body)| else sec.header.size)
            && h.offset == (if h.kind != SHT_NULL then DataPos(linked, i) else 0)
  {
    PlacedIndex(linked, i, DataPos(linked, i));
  }

  lemma HeaderReads(file: seq<Byte>, fh: FileHeader, pos: nat, h: SectionHeader, i: nat)
    requires fh.shoff >= 0 && fh.shentsize == 40 && pos == fh.shoff + 40 * i
    requires At(file, pos, PackHeader(h)) && HeaderFits(h)
    ensures HeaderAt(file, fh, i) == Some(h)
  {
    assert i * fh.shentsize == 40 * i;
    HeaderReadsBack(file, pos, h);
  }

  lemma DataReads(file: seq<Byte>, linked: seq<ElfSection>, i: nat)
    requires i < |linked| && Survives(file, linked[i]) && Standing(file, linked, i)
    ensures DataOf(file, PlacedAll(linked)[i].header) == ReadBytes(linked[i])
  {
    PlacedFields(linked, i);
    BodyReads(file, PlacedAll(linked)[i].header, DataPos(linked, i), BodyBytes(linked[i].body));
  }

  lemma BodyReads(file: seq<Byte>, h: SectionHeader, pos: nat, bytes: seq<Byte>)
    requires h.kind != SHT_NOBITS ==> h.size == |bytes|
    requires h.kind != SHT_NULL ==> h.offset == pos && At(file, pos, bytes)
    requires h.kind == SHT_NULL ==> h.offset == 0 && At(file, 0, bytes)
    ensures DataOf(file, h) == if h.kind == SHT_NOBITS then [] else bytes
  {
  }

  lemma SectionReads(file: seq<Byte>, fh: FileHeader, linked: seq<ElfSection>, i: nat)
    requires fh.shoff == |Data(linked)| && fh.shentsize == 40 && HeadersFit(PlacedAll(linked))
    requires i < |linked| && Survives(file, linked[i]) && Standing(file, linked, i)
    ensures SectionAt(file, fh, i) == Some((PlacedAll(linked)[i].header, ReadBytes(linked[i])))
  {
    HeaderReads(file, fh, HeaderPos(linked, i), PlacedAll(linked)[i].header, i);
    DataReads(file, linked, i);
  }

  // ----- symbols and relocations -----

  function Unlinked(entries: seq<Entry>): (r: seq<Entry>)
    ensures |r| == |entries|
  {
    if entries == [] then [] else [Entry(-1, entries[0].sym)] + Unlinked(entries[1..])
  }

  /** The offsets in the entries denote their names. */
  predicate NamesKnown(entries: seq<Entry>, strs: seq<string>) {
    forall i :: 0 <= i < |entries| ==>
      entries[i].stName >= 0 && AtOffset(strs, entries[i].stName) == entries[i].sym.name
  }

  lemma NamesKnownTail(entries: seq<Entry>, strs: seq<string>)
    requires entries != [] && NamesKnown(entries, strs) && BodyFits(Symbols(entries))
    ensures NamesKnown(entries[1..], strs) && BodyFits(Symbols(entries[1..]))
    ensures entries[0].stName >= 0 && AtOffset(strs, entries[0].stName) == entries[0].sym.name
    ensures SymbolFits(entries[0].stName, entries[0].sym)
  {
  }

  lemma {:induction false} SymbolsRead(bytes: seq<Byte>, pos: nat, entries: seq<Entry>, strs: seq<string>)
    requires At(bytes, pos, SymbolBytes(entries)) && pos + 16 * |entries| == |bytes|
    requires BodyFits(Symbols(entries)) && NamesKnown(entries, strs)
    ensures ParseSymbols(bytes, pos, strs) == Some(Unlinked(entries))
    decreases |entries|
  {
    if entries != [] {
      NamesKnownTail(entries, strs);
      var e := entries[0];
      AtSplit(bytes, pos, PackSymbol(e.stName, e.sym), SymbolBytes(entries[1..]));
      SymbolReadsBack(bytes, pos, e.stName, e.sym);
      SymbolsRead(bytes, pos + 16, entries[1..], strs);
    }
  }

  lemma {:induction false} RelasRead(bytes: seq<Byte>, pos: nat, relas: seq<Rela>)
    requires At(bytes, pos, RelaBytes(relas)) && pos + 12 * |relas| == |bytes|
    requires BodyFits(Relas(relas))
    ensures ParseRelas(bytes, pos) == Some(relas)
    decreases |relas|
  {
    if relas != [] {
      AtSplit(bytes, pos, PackRela(relas[0]), RelaBytes(relas[1..]));
      assert RelaFits(relas[0]);
      RelaReadsBack(bytes, pos, relas[0]);
      RelasRead(bytes, pos + 12, relas[1..]);
      assert [relas[0]] + relas[1..] == relas;
    }
  }

  /** What a section holds once it was read. */
  function Kept(b: Body): Body {
    match b
    case Symbols(entries) => Symbols(Unlinked(entries))
    case _ => b
  }

  lemma SymbolTableReads(entries: seq<Entry>, strs: seq<string>)
    requires BodyFits(Symbols(entries)) && NamesKnown(entries, strs)
    ensures ParseSymbols(BodyBytes(Symbols(entries)), 16, strs) == Some(Unlinked(entries))
  {
    var bytes := BodyBytes(Symbols(entries));
    assert bytes[16..16 + |SymbolBytes(entries)|] == SymbolBytes(entries);
    SymbolsRead(bytes, 16, entries, strs);
  }

  lemma BodyLoads(file: seq<Byte>, sec: ElfSection, h: SectionHeader, strs: seq<string>)
    requires Legible(sec) && Survives(file, sec) && BodyFits(sec.body) && h.kind == sec.header.kind
    requires h.kind != SHT_NOBITS ==> h.size == |ReadBytes(sec)|
    requires sec.body.Symbols? ==> NamesKnown(sec.body.entries, strs)
    ensures LoadBody(h, ReadBytes(sec), strs) == Some(Kept(sec.body))
  {
    match sec.body
    case Raw(d) =>
    case Table(ss) => StringsRoundTrip(ss);
    case Symbols(entries) => SymbolTableReads(entries, strs);
    case Relas(relas) =>
      var bytes := RelaBytes(relas);
      assert bytes[0..|bytes|] == bytes;
      RelasRead(bytes, 0, relas);
  }

  lemma RawLost(file: seq<Byte>, h: SectionHeader, pos: nat, size: int, d: seq<Byte>, strs: seq<string>)
    requires !RawSurvives(file, h.kind, size, d) && pos < |file| && h.size >= 0
    requires h.size == if d != [] then |d| else size
    requires h.offset == if h.kind != SHT_NULL then pos else 0
    requires At(file, pos, d)
    ensures LoadBody(h, DataOf(file, h), strs) != Some(Raw(d))
  {
    var back := DataOf(file, h);
    if h.kind == SHT_NULL && !At(file, 0, d) && |back| == h.size {
      assert back == file[0..h.size] && h.size == |d|;
    }
  }

  lemma RelasLost(h: SectionHeader, bytes: seq<Byte>, strs: seq<string>)
    requires h.kind == SHT_RELA && h.size != 0
    ensures LoadBody(h, bytes, strs) != Some(Relas([]))
  {
  }

  /** The type of a section decides what it is read as. */
  lemma KindOfBody(h: SectionHeader, bytes: seq<Byte>, strs: seq<string>)
    requires LoadBody(h, bytes, strs).Some?
    ensures match LoadBody(h, bytes, strs).value
            case Raw(_) => true
            case Table(_) => h.kind == SHT_STRTAB
            case Symbols(_) => h.kind == SHT_SYMTAB
            case Relas(_) => h.kind == SHT_RELA
  {
  }

  /** What does not survive is not read back. */
  lemma BodyLost(file: seq<Byte>, linked: seq<ElfSection>, i: nat, strs: seq<string>)
    requires i < |linked| && Standing(file, linked, i) && !Survives(file, linked[i])
    requires PlacedAll(linked)[i].header.size >= 0
    ensures LoadBody(PlacedAll(linked)[i].header, DataOf(file, PlacedAll(linked)[i].header), strs)
         != Some(Kept(linked[i].body))
  {
    PlacedFields(linked, i);
    DataBefore(linked, i);
    ContentsLost(file, linked[i], PlacedAll(linked)[i].header, DataPos(linked, i), strs);
  }

  lemma ContentsLost(file: seq<Byte>, sec: ElfSection, h: SectionHeader, pos: nat, strs: seq<string>)
    requires !Survives(file, sec) && pos < |file| && h.size >= 0 && h.kind == sec.header.kind
    requires h.size == if BodyBytes(sec.body) != [] then |BodyBytes(sec.body)| else sec.header.size
    requires h.offset == if h.kind != SHT_NULL then pos else 0
    requires At(file, pos, BodyBytes(sec.body))
    ensures LoadBody(h, DataOf(file, h), strs) != Some(Kept(sec.body))
  {
    var back := LoadBody(h, DataOf(file, h), strs);
    if back.Some? { KindOfBody(h, DataOf(file, h), strs); }
    match sec.body
    case Raw(d) => RawLost(file, h, pos, sec.header.size, d, strs);
    case Table(_) =>
    case Symbols(_) =>
    case Relas(relas) =>
      if h.kind == SHT_RELA {
        assert relas == [] && BodyBytes(sec.body) == [];
        RelasLost(h, DataOf(file, h), strs);
      }
  }

  lemma {:induction false} DataBefore(secs: seq<ElfSection>, i: nat)
    requires i <= |secs|
    ensures DataPos(secs, i) <= |Data(secs)|
    decreases |secs|
  {
    if i < |secs| {
      var front := secs[..|secs| - 1];
      assert front[..i] == secs[..i];
      DataBefore(front, i);
    } else {
      assert secs[..i] == secs;
    }
  }

  // ----- linked names -----

  lemma {:induction false} EntriesGrow(entries: seq<Entry>, strs: seq<string>)
    ensures strs <= EntriesAfter(entries, strs)
    decreases |entries|
  {
    if entries != [] { EntriesGrow(entries[1..], AddedTo(strs, entries[0].sym.name)); }
  }

  lemma {:induction false} StringsGrow(secs: seq<ElfSection>, strs: seq<string>)
    ensures strs <= AllStrings(secs, strs)
    decreases |secs|
  {
    if secs != [] {
      if secs[0].body.Symbols? { EntriesGrow(secs[0].body.entries, strs); }
      StringsGrow(secs[1..], StringsAfter(secs[0], strs));
    }
  }

  /** An offset handed out early is good in the final table. */
  lemma OffsetDenotes(strs: seq<string>, name: string, final: seq<string>)
    requires AddedTo(strs, name) <= final
    ensures AtOffset(final, OffsetIn(strs, name)) == name
  {
    if name != "" {
      assert final[..|strs|] == strs && final[|strs|] == name;
      LookupAt(final, |strs|);
    }
  }

  lemma {:induction false} EntriesLinked(entries: seq<Entry>, strs: seq<string>, final: seq<string>)
    requires EntriesAfter(entries, strs) <= final
    ensures NamesKnown(LinkEntries(entries, strs), final)
    ensures Unlinked(LinkEntries(entries, strs)) == Unlinked(entries)
    decreases |entries|
  {
    if entries != [] {
      var next := AddedTo(strs, entries[0].sym.name);
      EntriesGrow(entries[1..], next);
      OffsetDenotes(strs, entries[0].sym.name, final);
      EntriesLinked(entries[1..], next, final);
      assert LinkEntries(entries, strs)[1..] == LinkEntries(entries[1..], next);
    }
  }

  /** What linking does to a section. */
  predicate IsLinked(before: ElfSection, after: ElfSection, final: seq<string>) {
    && SameShape(before, after) && after.header.size == before.header.size && Kept(after.body) == Kept(before.body)
    && (after.body.Symbols? ==> NamesKnown(after.body.entries, final))
  }

  lemma SectionLinked(sec: ElfSection, strndx: int, names: seq<string>, strs: seq<string>, final: seq<string>)
    requires StringsAfter(sec, strs) <= final
    ensures IsLinked(sec, LinkSection(sec, strndx, names, strs), final)
  {
    if sec.body.Symbols? { EntriesLinked(sec.body.entries, strs, final); }
  }

  lemma {:induction false} SectionsLinked(secs: seq<ElfSection>, strndx: int, names: seq<string>, strs: seq<string>,
                                          final: seq<string>)
    requires AllStrings(secs, strs) <= final
    ensures forall i :: 0 <= i < |secs| ==> IsLinked(secs[i], Linked(secs, strndx, names, strs)[i], final)
    decreases |secs|
  {
    if secs != [] {
      StringsGrow(secs[1..], StringsAfter(secs[0], strs));
      SectionLinked(secs[0], strndx, names, strs, final);
      SectionsLinked(secs[1..], strndx, AddedTo(names, secs[0].name), StringsAfter(secs[0], strs), final);
    }
  }

  lemma {:induction false} UnlinkedIndex(entries: seq<Entry>, i: nat)
    requires i < |entries|
    ensures Unlinked(entries)[i] == Entry(-1, entries[i].sym)
  {
    if i > 0 { UnlinkedIndex(entries[1..], i - 1); }
  }

  lemma LegibleLinked(before: ElfSection, after: ElfSection, final: seq<string>)
    requires IsLinked(before, after, final) && Legible(before)
    ensures Legible(after)
  {
    if before.body.Symbols? {
      var a, b := before.body.entries, after.body.entries;
      forall i | 0 <= i < |b| ensures PlainName(b[i].sym.name) {
        UnlinkedIndex(a, i);
        UnlinkedIndex(b, i);
      }
    }
  }

  // ----- the names -----

  predicate GoodStrings(strs: seq<string>) {
    forall i :: 0 <= i < |strs| ==> PlainName(strs[i]) && strs[i] != ""
  }

  lemma {:induction false} GoodEntries(entries: seq<Entry>, strs: seq<string>)
    requires GoodStrings(strs) && forall i :: 0 <= i < |entries| ==> PlainName(entries[i].sym.name)
    ensures GoodStrings(EntriesAfter(entries, strs))
    decreases |entries|
  {
    if entries != [] { GoodEntries(entries[1..], AddedTo(strs, entries[0].sym.name)); }
  }

  lemma {:induction false} GoodSymbolNames(secs: seq<ElfSection>, strs: seq<string>)
    requires GoodStrings(strs) && forall i :: 0 <= i < |secs| ==> Legible(secs[i])
    ensures GoodStrings(AllStrings(secs, strs))
    decreases |secs|
  {
    if secs != [] {
      if secs[0].body.Symbols? {
        assert Legible(secs[0]);
        GoodEntries(secs[0].body.entries, strs);
      }
      GoodSymbolNames(secs[1..], StringsAfter(secs[0], strs));
    }
  }

  lemma {:induction false} GoodSectionNames(secs: seq<ElfSection>, names: seq<string>)
    requires GoodStrings(names) && forall i :: 0 <= i < |secs| ==> PlainName(secs[i].name)
    ensures GoodStrings(AllNames(secs, names))
    decreases |secs|
  {
    if secs != [] { GoodSectionNames(secs[1..], AddedTo(names, secs[0].name)); }
  }

  predicate AllNamed(secs: seq<ElfSection>) {
    forall i :: 0 <= i < |secs| ==> secs[i].name != ""
  }

  /** The section name table has as many names as sections exactly when no section's name is empty; only then
      does name `i` belong to section `i`. */
  lemma {:induction false} NamesCount(secs: seq<ElfSection>, names: seq<string>)
    ensures |AllNames(secs, names)| <= |names| + |secs|
    ensures |AllNames(secs, names)| == |names| + |secs| <==> AllNamed(secs)
    ensures names <= AllNames(secs, names)
    ensures AllNamed(secs) ==> forall i :: 0 <= i < |secs| ==> AllNames(secs, names)[|names| + i] == secs[i].name
    decreases |secs|
  {
    if secs != [] {
      var next := AddedTo(names, secs[0].name);
      NamesCount(secs[1..], next);
      assert AllNamed(secs) <==> secs[0].name != "" && AllNamed(secs[1..]) by {
        assert secs == [secs[0]] + secs[1..];
      }
      if AllNamed(secs) {
        forall i | 0 <= i < |secs| ensures AllNames(secs, names)[|names| + i] == secs[i].name {
          if i == 0 {
            assert AllNames(secs, names)[|names|] == next[|names|];
          } else {
            assert AllNames(secs[1..], next)[|next| + (i - 1)] == secs[1..][i - 1].name;
          }
        }
      }
    }
  }

  // ----- the whole file -----

  /** Section `i` after reading: its name, its header, and what it holds. */
  function Loaded(secs: seq<ElfSection>, linked: seq<ElfSection>, i: nat): ElfSection
    requires i < |secs| == |linked|
  {
    ElfSection(secs[i].name, LoadedHeader(PlacedAll(linked)[i].header), Kept(linked[i].body))
  }

  /** The names in section `i` can be read. */
  predicate SectionOk(linked: seq<ElfSection>, i: nat, strs: seq<string>)
    requires i < |linked|
  {
    Legible(linked[i]) && (linked[i].body.Symbols? ==> NamesKnown(linked[i].body.entries, strs))
  }

  predicate NamesOk(names: seq<string>, secs: seq<ElfSection>) {
    forall i :: 0 <= i < |secs| ==> NameAt(names, i) == Some(secs[i].name)
  }

  /** The file, as far as reading its sections needs to know it. */
  predicate Good(file: seq<Byte>, fh: FileHeader, linked: seq<ElfSection>) {
    && fh.shoff == |Data(linked)| && fh.shentsize == 40 && fh.shnum == |linked|
    && BodiesFit(linked) && HeadersFit(PlacedAll(linked)) && AllStanding(file, linked)
  }

  lemma NamedSection(file: seq<Byte>, fh: FileHeader, names: seq<string>, strs: seq<string>, i: nat, name: string,
                     h: SectionHeader)
    requires fh.shoff >= 0 && fh.shentsize >= 0 && NameAt(names, i) == Some(name) && HeaderAt(file, fh, i) == Some(h)
    ensures SectionNamed(file, fh, names, strs, i) == LoadSection(name, h, DataOf(file, h), strs)
  {
  }

  /** Section `i` comes back exactly when it survives. */
  lemma SectionLoads(file: seq<Byte>, fh: FileHeader, secs: seq<ElfSection>, linked: seq<ElfSection>,
                     names: seq<string>, strs: seq<string>, i: nat)
    requires Good(file, fh, linked) && i < |secs| == |linked|
    requires SectionOk(linked, i, strs) && NameAt(names, i) == Some(secs[i].name)
    ensures SectionNamed(file, fh, names, strs, i) == Some(Loaded(secs, linked, i)) <==> Survives(file, linked[i])
  {
    var h := PlacedAll(linked)[i].header;
    assert Standing(file, linked, i);
    HeaderReads(file, fh, HeaderPos(linked, i), h, i);
    NamedSection(file, fh, names, strs, i, secs[i].name, h);
    BodyLoadsIff(file, linked, i, strs);
  }

  lemma BodyLoadsIff(file: seq<Byte>, linked: seq<ElfSection>, i: nat, strs: seq<string>)
    requires i < |linked| && Standing(file, linked, i) && SectionOk(linked, i, strs) && BodyFits(linked[i].body)
    requires PlacedAll(linked)[i].header.size >= 0
    ensures var h := PlacedAll(linked)[i].header;
            LoadBody(h, DataOf(file, h), strs) == Some(Kept(linked[i].body)) <==> Survives(file, linked[i])
  {
    if Survives(file, linked[i]) {
      PlacedFields(linked, i);
      DataReads(file, linked, i);
      BodyLoads(file, linked[i], PlacedAll(linked)[i].header, strs);
    } else {
      BodyLost(file, linked, i, strs);
    }
  }

  function LoadedFrom(secs: seq<ElfSection>, linked: seq<ElfSection>, i: nat): (r: seq<ElfSection>)
    requires i <= |secs| == |linked|
    ensures |r| == |secs| - i
    decreases |secs| - i
  {
    if i == |secs| then [] else [Loaded(secs, linked, i)] + LoadedFrom(secs, linked, i + 1)
  }

  lemma {:induction false} LoadedIndex(secs: seq<ElfSection>, linked: seq<ElfSection>, i: nat, k: nat, j: nat)
    requires j == i + k < |secs| == |linked|
    ensures LoadedFrom(secs, linked, i)[k] == Loaded(secs, linked, j)
    decreases k
  {
    if k > 0 { LoadedIndex(secs, linked, i + 1, k - 1, j); }
  }

  /** The sections from number `i` on are read as expected. */
  predicate AllLoad(file: seq<Byte>, fh: FileHeader, secs: seq<ElfSection>, linked: seq<ElfSection>,
                    names: seq<string>, strs: seq<string>, i: nat)
    requires fh.shoff >= 0 && fh.shentsize >= 0 && |secs| == |linked|
  {
    forall j :: i <= j < |secs| ==> SectionNamed(file, fh, names, strs, j) == Some(Loaded(secs, linked, j))
  }

  lemma AllLoadStep(file: seq<Byte>, fh: FileHeader, secs: seq<ElfSection>, linked: seq<ElfSection>,
                    names: seq<string>, strs: seq<string>, i: nat)
    requires fh.shoff >= 0 && fh.shentsize >= 0 && i < |secs| == |linked|
    ensures AllLoad(file, fh, secs, linked, names, strs, i)
       <==> SectionNamed(file, fh, names, strs, i) == Some(Loaded(secs, linked, i))
            && AllLoad(file, fh, secs, linked, names, strs, i + 1)
  {
  }

  lemma LoadUnfold(file: seq<Byte>, fh: FileHeader, names: seq<string>, strs: seq<string>, i: nat,
                   x: ElfSection, xs: seq<ElfSection>)
    requires fh.shoff >= 0 && fh.shentsize >= 0 && i < fh.shnum
    ensures LoadSections(file, fh, names, strs, i) == Some([x] + xs)
       <==> SectionNamed(file, fh, names, strs, i) == Some(x) && LoadSections(file, fh, names, strs, i + 1) == Some(xs)
  {
    var here, rest := SectionNamed(file, fh, names, strs, i), LoadSections(file, fh, names, strs, i + 1);
    if here.Some? && rest.Some? { FirstAndRest(here.value, rest.value, x, xs); }
  }

  lemma {:induction false} SectionsLoad(file: seq<Byte>, fh: FileHeader, secs: seq<ElfSection>, linked: seq<ElfSection>,
                                        names: seq<string>, strs: seq<string>, i: nat)
    requires fh.shoff >= 0 && fh.shentsize >= 0 && fh.shnum == |secs|
    requires i <= |secs| == |linked|
    ensures LoadSections(file, fh, names, strs, i) == Some(LoadedFrom(secs, linked, i))
       <==> AllLoad(file, fh, secs, linked, names, strs, i)
    decreases |secs| - i
  {
    if i < |secs| {
      SectionsLoad(file, fh, secs, linked, names, strs, i + 1);
      AllLoadStep(file, fh, secs, linked, names, strs, i);
      LoadedStep(secs, linked, i);
      LoadUnfold(file, fh, names, strs, i, Loaded(secs, linked, i), LoadedFrom(secs, linked, i + 1));
    } else {
      LoadedEnd(secs, linked);
    }
  }

  lemma LoadedStep(secs: seq<ElfSection>, linked: seq<ElfSection>, i: nat)
    requires i < |secs| == |linked|
    ensures LoadedFrom(secs, linked, i) == [Loaded(secs, linked, i)] + LoadedFrom(secs, linked, i + 1)
  {
  }

  lemma LoadedEnd(secs: seq<ElfSection>, linked: seq<ElfSection>)
    requires |secs| == |linked|
    ensures LoadedFrom(secs, linked, |secs|) == []
  {
  }

  lemma FirstAndRest<T>(x: T, xs: seq<T>, y: T, ys: seq<T>)
    ensures [x] + xs == [y] + ys <==> x == y && xs == ys
  {
    assert ([x] + xs)[0] == x && ([y] + ys)[0] == y;
    assert ([x] + xs)[1..] == xs && ([y] + ys)[1..] == ys;
  }

  /** Without a name for some section the reading stops with an index error. */
  lemma {:induction false} NamesMissing(file: seq<Byte>, fh: FileHeader, names: seq<string>, strs: seq<string>, i: nat)
    requires fh.shoff >= 0 && fh.shentsize >= 0
    requires i < fh.shnum && |names| < fh.shnum - 1
    ensures LoadSections(file, fh, names, strs, i) == None
    decreases fh.shnum - i
  {
    if i + 1 < fh.shnum { NamesMissing(file, fh, names, strs, i + 1); }
  }

  lemma {:induction false} NameFound(names: seq<string>, secs: seq<ElfSection>, name: string, ndx: nat, i: nat)
    requires NamesOk(names, secs) && i <= ndx < |secs| && secs[ndx].name == name
    requires forall j :: 0 <= j < ndx ==> secs[j].name != name
    ensures FindName(names, |secs|, name, i) == Some(ndx)
    decreases ndx - i
  {
    assert NameAt(names, i) == Some(secs[i].name);
    if i < ndx { NameFound(names, secs, name, ndx, i + 1); }
  }

  predicate IsTable(sec: ElfSection, strs: seq<string>) {
    Legible(sec) && sec.header.kind == SHT_STRTAB && sec.body == Table(strs)
  }

  lemma TableLoads(file: seq<Byte>, fh: FileHeader, linked: seq<ElfSection>, ndx: nat, strs: seq<string>)
    requires Good(file, fh, linked) && ndx < |linked| && IsTable(linked[ndx], strs)
    ensures StringsAt(file, fh, ndx) == Some(strs)
  {
    SectionReads(file, fh, linked, ndx);
    PlacedFields(linked, ndx);
    StringsRoundTrip(strs);
  }

  /** What the round trip asks of the sections; a caller can check all of it before writing. */
  predicate Sound(secs: seq<ElfSection>, shstrndx: int, strndx: int) {
    && TableAt(secs, shstrndx, SHSTRTAB) && TableAt(secs, strndx, STRTAB) && secs[0].name == ""
    && (forall i :: 0 <= i < |secs| ==> PlainName(secs[i].name))
    && (forall i :: 0 <= i < |secs| ==> Legible(secs[i]))
  }

  /** What is expected of section `i` after linking. */
  predicate LinkedAs(secs: seq<ElfSection>, linked: seq<ElfSection>, i: nat, shstrndx: int, strndx: int)
    requires i < |secs| == |linked|
  {
    Kept(linked[i].body) == if i == strndx then Table(AllStrings(secs, []))
                            else if i == shstrndx then Table(AllNames(secs, []))
                            else Kept(secs[i].body)
  }

  lemma LinkedOk(secs: seq<ElfSection>, shstrndx: int, strndx: int, i: nat)
    requires Sound(secs, shstrndx, strndx) && i < |secs|
    ensures SectionOk(LinkedAll(secs, shstrndx, strndx), i, AllStrings(secs, []))
    ensures LinkedAs(secs, LinkedAll(secs, shstrndx, strndx), i, shstrndx, strndx)
    ensures LinkedAll(secs, shstrndx, strndx)[i].header.kind == secs[i].header.kind
    ensures forall file :: Survives(file, LinkedAll(secs, shstrndx, strndx)[i]) <==> Survives(file, secs[i])
  {
    var names, strs, linked := AllNames(secs, []), AllStrings(secs, []), Linked(secs, strndx, [], []);
    SectionsLinked(secs, strndx, [], [], strs);
    assert IsLinked(secs[i], linked[i], strs);
    GoodSymbolNames(secs, []);
    GoodSectionNames(secs, []);
    LegibleLinked(secs[i], linked[i], strs);
  }

  lemma TablesLinked(secs: seq<ElfSection>, shstrndx: int, strndx: int)
    requires Sound(secs, shstrndx, strndx)
    ensures var linked := LinkedAll(secs, shstrndx, strndx);
            && linked[shstrndx].body == Table(AllNames(secs, [])) && linked[strndx].body == Table(AllStrings(secs, []))
            && linked[shstrndx].header.kind == SHT_STRTAB && linked[strndx].header.kind == SHT_STRTAB
  {
    LinkedShape(secs, strndx, [], []);
    assert secs[shstrndx].name != secs[strndx].name;
  }

  /** The name table of the whole list; the NULL section adds nothing to it. */
  lemma NamesInOrder(secs: seq<ElfSection>)
    requires secs != [] && secs[0].name == ""
    ensures AllNamed(secs[1..]) ==> NamesOk(AllNames(secs, []), secs)
    ensures !AllNamed(secs[1..]) ==> |AllNames(secs, [])| < |secs| - 1
  {
    var names := AllNames(secs, []);
    NamesCount(secs[1..], []);
    assert names == AllNames(secs[1..], []);
    if AllNamed(secs[1..]) {
      forall i | 0 <= i < |secs| ensures NameAt(names, i) == Some(secs[i].name) {
        if i > 0 { assert names[0 + (i - 1)] == secs[1..][i - 1].name; }
      }
    }
  }

  lemma CommonLoads(file: seq<Byte>, fh: FileHeader, secs: seq<ElfSection>, linked: seq<ElfSection>,
                    shstrndx: int, strndx: int)
    requires Sound(secs, shstrndx, strndx) && linked == LinkedAll(secs, shstrndx, strndx)
    requires ParseFileHeader(file) == Some(fh) && fh.shstrndx == shstrndx && Good(file, fh, linked)
    requires forall i :: 0 <= i < |secs| ==> SectionOk(linked, i, AllStrings(secs, []))
    requires NamesOk(AllNames(secs, []), secs)
    ensures ReadCommon(file) == Some((fh, AllNames(secs, []), strndx as nat, AllStrings(secs, [])))
  {
    var names, strs := AllNames(secs, []), AllStrings(secs, []);
    TablesLinked(secs, shstrndx, strndx);
    assert SectionOk(linked, shstrndx, strs) && SectionOk(linked, strndx, strs);
    BothTablesLoad(file, fh, secs, linked, shstrndx, strndx, names, strs);
  }

  lemma BothTablesLoad(file: seq<Byte>, fh: FileHeader, secs: seq<ElfSection>, linked: seq<ElfSection>,
                       shstrndx: nat, strndx: nat, names: seq<string>, strs: seq<string>)
    requires ParseFileHeader(file) == Some(fh) && fh.shstrndx == shstrndx && Good(file, fh, linked)
    requires TableAt(secs, strndx, STRTAB) && NamesOk(names, secs) && shstrndx < |linked| && |linked| == |secs|
    requires IsTable(linked[shstrndx], names) && IsTable(linked[strndx], strs)
    ensures ReadCommon(file) == Some((fh, names, strndx, strs))
  {
    TableLoads(file, fh, linked, shstrndx, names);
    TableLoads(file, fh, linked, strndx, strs);
    NameFound(names, secs, STRTAB, strndx, 0);
  }

  /** With a name missing, the names read are too few whatever else is read. */
  lemma LoadingFails(file: seq<Byte>, fh: FileHeader, secs: seq<ElfSection>, linked: seq<ElfSection>,
                     shstrndx: int, strndx: int)
    requires Sound(secs, shstrndx, strndx) && linked == LinkedAll(secs, shstrndx, strndx)
    requires ParseFileHeader(file) == Some(fh) && fh.shstrndx == shstrndx && Good(file, fh, linked)
    requires SectionOk(linked, shstrndx, AllStrings(secs, []))
    requires |AllNames(secs, [])| < |secs| - 1
    ensures ReadElf(file) == None
  {
    TablesLinked(secs, shstrndx, strndx);
    TableLoads(file, fh, linked, shstrndx, AllNames(secs, []));
    var common := ReadCommon(file);
    if common.Some? {
      NamesMissing(file, fh, AllNames(secs, []), common.value.3, 1);
    }
  }

  /** What is read if everything comes back. */
  function Expected(fh: FileHeader, secs: seq<ElfSection>, linked: seq<ElfSection>, strndx: nat): Image
    requires 1 <= |secs| == |linked|
  {
    Image(fh, AllNames(secs, []), strndx, AllStrings(secs, []), [NullSection()] + LoadedFrom(secs, linked, 1))
  }

  predicate BeginsWithNull(secs: seq<ElfSection>) {
    secs != [] && secs[0] == NullSection()
  }

  lemma FileLoads(file: seq<Byte>, fh: FileHeader, secs: seq<ElfSection>, linked: seq<ElfSection>,
                  shstrndx: int, strndx: int)
    requires Sound(secs, shstrndx, strndx) && linked == LinkedAll(secs, shstrndx, strndx)
    requires ParseFileHeader(file) == Some(fh) && fh.shstrndx == shstrndx && Good(file, fh, linked)
    requires forall i :: 0 <= i < |secs| ==> SectionOk(linked, i, AllStrings(secs, []))
    ensures !AllNamed(secs[1..]) ==> ReadElf(file) == None
    ensures AllNamed(secs[1..]) ==>
              (ReadElf(file) == Some(Expected(fh, secs, linked, strndx))
               <==> forall j :: 1 <= j < |secs| ==> Survives(file, linked[j]))
    ensures ReadElf(file).Some? ==> BeginsWithNull(ReadElf(file).value.sections)
  {
    NamesInOrder(secs);
    if AllNamed(secs[1..]) {
      NamedFileLoads(file, fh, secs, linked, AllNames(secs, []), AllStrings(secs, []), shstrndx, strndx);
    } else {
      assert SectionOk(linked, shstrndx, AllStrings(secs, []));
      LoadingFails(file, fh, secs, linked, shstrndx, strndx);
    }
  }

  lemma NamedFileLoads(file: seq<Byte>, fh: FileHeader, secs: seq<ElfSection>, linked: seq<ElfSection>,
                       names: seq<string>, strs: seq<string>, shstrndx: int, strndx: nat)
    requires Sound(secs, shstrndx, strndx) && linked == LinkedAll(secs, shstrndx, strndx)
    requires ParseFileHeader(file) == Some(fh) && fh.shstrndx == shstrndx && Good(file, fh, linked)
    requires names == AllNames(secs, []) && strs == AllStrings(secs, []) && NamesOk(names, secs)
    requires forall i :: 0 <= i < |secs| ==> SectionOk(linked, i, strs)
    ensures ReadElf(file) == Some(Expected(fh, secs, linked, strndx))
       <==> forall j :: 1 <= j < |secs| ==> Survives(file, linked[j])
    ensures ReadElf(file).Some? ==> BeginsWithNull(ReadElf(file).value.sections)
  {
    CommonLoads(file, fh, secs, linked, shstrndx, strndx);
    SectionsSurvive(file, fh, secs, linked, names, strs);
    ReadRest(file, fh, names, strs, strndx, LoadedFrom(secs, linked, 1));
  }

  lemma SectionsSurvive(file: seq<Byte>, fh: FileHeader, secs: seq<ElfSection>, linked: seq<ElfSection>,
                        names: seq<string>, strs: seq<string>)
    requires Good(file, fh, linked) && 1 <= |secs| == |linked| && NamesOk(names, secs)
    requires forall i :: 0 <= i < |secs| ==> SectionOk(linked, i, strs)
    ensures LoadSections(file, fh, names, strs, 1) == Some(LoadedFrom(secs, linked, 1))
       <==> forall j :: 1 <= j < |secs| ==> Survives(file, linked[j])
  {
    forall j | 1 <= j < |secs|
      ensures SectionNamed(file, fh, names, strs, j) == Some(Loaded(secs, linked, j)) <==> Survives(file, linked[j])
    {
      SectionLoads(file, fh, secs, linked, names, strs, j);
    }
    SectionsLoad(file, fh, secs, linked, names, strs, 1);
  }

  lemma ReadRest(file: seq<Byte>, fh: FileHeader, names: seq<string>, strs: seq<string>, strndx: nat,
                 secs: seq<ElfSection>)
    requires ReadCommon(file) == Some((fh, names, strndx, strs)) && fh.shoff >= 0 && fh.shentsize >= 0
    ensures ReadElf(file) == Some(Image(fh, names, strndx, strs, [NullSection()] + secs))
       <==> LoadSections(file, fh, names, strs, 1) == Some(secs)
    ensures ReadElf(file).Some? ==> BeginsWithNull(ReadElf(file).value.sections)
  {
    var rest := LoadSections(file, fh, names, strs, 1);
    if rest.Some? { FirstAndRest(NullSection(), rest.value, NullSection(), secs); }
  }

  /** `file` is what is written for these sections. */
  predicate IsWritten(file: seq<Byte>, fh: FileHeader, secs: seq<ElfSection>, linked: seq<ElfSection>,
                      shstrndx: int, strndx: int) {
    && linked == LinkedAll(secs, shstrndx, strndx)
    && fh == HeaderOf(fh.kind, fh.machine, fh.entry, fh.flags, linked, shstrndx)
    && FileFits(fh, linked) && file == FileImage(fh, linked)
  }

  lemma WrittenOk(file: seq<Byte>, fh: FileHeader, secs: seq<ElfSection>, linked: seq<ElfSection>,
                  shstrndx: int, strndx: int)
    requires Sound(secs, shstrndx, strndx) && IsWritten(file, fh, secs, linked, shstrndx, strndx)
    ensures ParseFileHeader(file) == Some(fh) && fh.shstrndx == shstrndx && Good(file, fh, linked)
    ensures forall i :: 0 <= i < |secs| ==>
              SectionOk(linked, i, AllStrings(secs, [])) && LinkedAs(secs, linked, i, shstrndx, strndx)
    ensures forall i :: 0 <= i < |secs| ==> (Survives(file, linked[i]) <==> Survives(file, secs[i]))
  {
    ImageStarts(fh, linked);
    ImageHolds(fh, linked);
    forall i | 0 <= i < |secs|
      ensures SectionOk(linked, i, AllStrings(secs, [])) && LinkedAs(secs, linked, i, shstrndx, strndx)
      ensures Survives(file, linked[i]) <==> Survives(file, secs[i])
    {
      LinkedOk(secs, shstrndx, strndx, i);
    }
  }

  /** Header, string tables and sections of a written object come back exactly when every section but the first has a
      name and survives; without a name for every one of them the file cannot be read at all. */
  lemma WriteThenRead(file: seq<Byte>, fh: FileHeader, secs: seq<ElfSection>, linked: seq<ElfSection>,
                      shstrndx: int, strndx: int)
    requires Sound(secs, shstrndx, strndx) && IsWritten(file, fh, secs, linked, shstrndx, strndx)
    ensures !AllNamed(secs[1..]) ==> ReadElf(file) == None
    ensures ComesBack(ReadElf(file), fh, secs, linked, shstrndx, strndx)
       <==> AllNamed(secs[1..]) && forall i :: 1 <= i < |secs| ==> Survives(file, secs[i])
  {
    WrittenOk(file, fh, secs, linked, shstrndx, strndx);
    FileLoads(file, fh, secs, linked, shstrndx, strndx);
    if ReadElf(file).Some? {
      ImageRead(ReadElf(file).value, fh, secs, linked, AllNames(secs, []), AllStrings(secs, []), shstrndx, strndx);
    }
    assert (forall i :: 1 <= i < |secs| ==> Survives(file, secs[i]))
      <==> (forall i :: 1 <= i < |secs| ==> Survives(file, linked[i]));
  }

  /** Data of a NULL section come back only if the file begins with them. */
  lemma NullDataIsLost(file: seq<Byte>, fh: FileHeader, secs: seq<ElfSection>, linked: seq<ElfSection>,
                       shstrndx: int, strndx: int, i: nat)
    requires Sound(secs, shstrndx, strndx) && IsWritten(file, fh, secs, linked, shstrndx, strndx)
    requires 1 <= i < |secs| && secs[i].header.kind == SHT_NULL && secs[i].body.Raw? && secs[i].body.data != []
    requires secs[i].body.data[0] != fh.ident[0]
    ensures !ComesBack(ReadElf(file), fh, secs, linked, shstrndx, strndx)
  {
    WriteThenRead(file, fh, secs, linked, shstrndx, strndx);
    assert file[0] == fh.ident[0];
    if Survives(file, secs[i]) { AtIndex(file, 0, secs[i].body.data, 0); }
  }

  /** The header and the string tables as written, and every section with the name, the header and the contents
      it was written with. */
  predicate IsReadOf(image: Image, fh: FileHeader, secs: seq<ElfSection>, linked: seq<ElfSection>,
                     names: seq<string>, strs: seq<string>, shstrndx: int, strndx: int)
    requires |secs| == |linked|
  {
    && image.header == fh && image.names == names && image.strs == strs && image.strtabndx == strndx
    && |image.sections| == |secs|
    && forall i :: 1 <= i < |secs| ==>
         && image.sections[i].name == secs[i].name
         && image.sections[i].header == LoadedHeader(PlacedAll(linked)[i].header)
         && image.sections[i].body == if i == strndx then Table(strs) else if i == shstrndx then Table(names)
                                      else Kept(secs[i].body)
  }

  predicate ComesBack(image: Option<Image>, fh: FileHeader, secs: seq<ElfSection>, linked: seq<ElfSection>,
                      shstrndx: int, strndx: int)
    requires |secs| == |linked|
  {
    && image.Some?
    && IsReadOf(image.value, fh, secs, linked, AllNames(secs, []), AllStrings(secs, []), shstrndx, strndx)
  }

  lemma ImageRead(image: Image, fh: FileHeader, secs: seq<ElfSection>, linked: seq<ElfSection>,
                  names: seq<string>, strs: seq<string>, shstrndx: int, strndx: nat)
    requires 1 <= |secs| == |linked| && names == AllNames(secs, []) && strs == AllStrings(secs, [])
    requires BeginsWithNull(image.sections)
    requires forall i :: 0 <= i < |secs| ==> LinkedAs(secs, linked, i, shstrndx, strndx)
    ensures IsReadOf(image, fh, secs, linked, names, strs, shstrndx, strndx)
       <==> image == Expected(fh, secs, linked, strndx)
  {
    var all := [NullSection()] + LoadedFrom(secs, linked, 1);
    forall i | 1 <= i < |secs| ensures all[i] == Loaded(secs, linked, i) {
      LoadedIndex(secs, linked, 1, i - 1, i);
    }
    forall i | 1 <= i < |secs|
      ensures Kept(linked[i].body) == if i == strndx then Table(strs) else if i == shstrndx then Table(names)
                                      else Kept(secs[i].body)
    {
      assert LinkedAs(secs, linked, i, shstrndx, strndx);
    }
    if IsReadOf(image, fh, secs, linked, names, strs, shstrndx, strndx) {
      forall i | 1 <= i < |secs| ensures image.sections[i] == all[i] {
        assert image.sections[i].name == secs[i].name;
      }
      SameSections(image.sections, all);
    }
  }

  lemma SameSections(a: seq<ElfSection>, b: seq<ElfSection>)
    requires |a| == |b| >= 1 && a[0] == b[0] && forall i :: 1 <= i < |a| ==> a[i] == b[i]
    ensures a == b
  {
  }

  /** `read_symtab` finds the symbols of the first section named .symtab, with their names, exactly when its type is
      that of a symbol table. */
  lemma SymtabReads(file: seq<Byte>, fh: FileHeader, secs: seq<ElfSection>, linked: seq<ElfSection>,
                    shstrndx: int, strndx: int, ndx: nat)
    requires Sound(secs, shstrndx, strndx) && IsWritten(file, fh, secs, linked, shstrndx, strndx)
    requires AllNamed(secs[1..])
    requires ndx < |secs| && secs[ndx].name == ".symtab" && secs[ndx].body.Symbols?
    requires forall j :: 0 <= j < ndx ==> secs[j].name != ".symtab"
    ensures ReadSymtab(file)
         == if secs[ndx].header.kind == SHT_SYMTAB then Some(Unlinked(secs[ndx].body.entries)) else None
  {
    WrittenOk(file, fh, secs, linked, shstrndx, strndx);
    NamesInOrder(secs);
    CommonLoads(file, fh, secs, linked, shstrndx, strndx);
    LinkedOk(secs, shstrndx, strndx, ndx);
    SymtabFound(file, fh, secs, linked, shstrndx, strndx, ndx);
  }

  lemma SymtabFound(file: seq<Byte>, fh: FileHeader, secs: seq<ElfSection>, linked: seq<ElfSection>,
                    shstrndx: int, strndx: nat, ndx: nat)
    requires |secs| == |linked| && Good(file, fh, linked) && ndx != shstrndx && ndx != strndx
    requires ReadCommon(file) == Some((fh, AllNames(secs, []), strndx, AllStrings(secs, [])))
    requires NamesOk(AllNames(secs, []), secs)
    requires ndx < |secs| && secs[ndx].name == ".symtab" && secs[ndx].body.Symbols?
    requires forall j :: 0 <= j < ndx ==> secs[j].name != ".symtab"
    requires SectionOk(linked, ndx, AllStrings(secs, [])) && LinkedAs(secs, linked, ndx, shstrndx, strndx)
    requires secs[ndx].header.kind == linked[ndx].header.kind
    ensures ReadSymtab(file)
         == if secs[ndx].header.kind == SHT_SYMTAB then Some(Unlinked(secs[ndx].body.entries)) else None
  {
    NameFound(AllNames(secs, []), secs, ".symtab", ndx, 0);
    if secs[ndx].header.kind == SHT_SYMTAB {
      SymtabLoads(file, fh, linked, ndx, AllStrings(secs, []));
      SymtabTaken(file, fh, AllNames(secs, []), strndx, AllStrings(secs, []), ndx);
    } else {
      var h := PlacedAll(linked)[ndx].header;
      assert Standing(file, linked, ndx);
      HeaderReads(file, fh, HeaderPos(linked, ndx), h, ndx);
      PlacedFields(linked, ndx);
      SymtabRefused(file, fh, h, AllNames(secs, []), strndx, AllStrings(secs, []), ndx);
    }
  }

  lemma SymtabTaken(file: seq<Byte>, fh: FileHeader, names: seq<string>, strndx: nat, strs: seq<string>, ndx: nat)
    requires ReadCommon(file) == Some((fh, names, strndx, strs)) && fh.shoff >= 0 && fh.shentsize >= 0
    requires FindName(names, fh.shnum, ".symtab", 0) == Some(ndx)
    requires var s := SectionAt(file, fh, ndx);
             s.Some? && s.value.0.kind == SHT_SYMTAB && |s.value.1| == s.value.0.size
    ensures ReadSymtab(file) == ParseSymbols(SectionAt(file, fh, ndx).value.1, 16, strs)
  {
  }

  lemma SymtabRefused(file: seq<Byte>, fh: FileHeader, h: SectionHeader, names: seq<string>, strndx: nat,
                      strs: seq<string>, ndx: nat)
    requires ReadCommon(file) == Some((fh, names, strndx, strs)) && fh.shoff >= 0 && fh.shentsize >= 0
    requires FindName(names, fh.shnum, ".symtab", 0) == Some(ndx)
    requires HeaderAt(file, fh, ndx) == Some(h) && h.kind != SHT_SYMTAB
    ensures ReadSymtab(file) == None
  {
  }

  lemma SymtabLoads(file: seq<Byte>, fh: FileHeader, linked: seq<ElfSection>, ndx: nat, strs: seq<string>)
    requires Good(file, fh, linked) && ndx < |linked| && SectionOk(linked, ndx, strs) && linked[ndx].body.Symbols?
    requires linked[ndx].header.kind == SHT_SYMTAB
    ensures var s := SectionAt(file, fh, ndx);
            && s.Some? && s.value.0.kind == SHT_SYMTAB && |s.value.1| == s.value.0.size
            && ParseSymbols(s.value.1, 16, strs) == Some(Unlinked(linked[ndx].body.entries))
  {
    SectionReads(file, fh, linked, ndx);
    PlacedFields(linked, ndx);
    SymbolTableReads(linked[ndx].body.entries, strs);
  }
}
