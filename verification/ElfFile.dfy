/** Writing ELF objects and reading them back: `ElfFile` of tools/elffile.py and its sections. */
module ElfFile {
  import opened Bytes
  import opened ElfCodec
  import opened ElfStrings
  import opened RelTypes

  /** A symbol with its field `st_name`, which is -1 until the string tables are linked. */
  datatype Entry = Entry(stName: int, sym: Symbol)

  /** What the classes ElfSection, ElfStrtab, ElfSymtab and ElfRelaSec hold. */
  datatype Body =
    | Raw(data: seq<Byte>)
    | Table(strs: seq<string>)
    | Symbols(entries: seq<Entry>)
    | Relas(relas: seq<Rela>)

  datatype ElfSection = ElfSection(name: string, header: SectionHeader, body: Body)

  const SHSTRTAB: string := ".shstrtab"
  const STRTAB: string := ".strtab"

  function NullSection(): ElfSection {
    ElfSection("", SectionHeader(-1, SHT_NULL, 0, 0, -1, 0, 0, 0, 0, 0), Raw([]))
  }

  function TableSection(name: string): ElfSection {
    ElfSection(name, SectionHeader(-1, SHT_STRTAB, 0, 0, -1, 0, 0, 0, 0, 0), Table([]))
  }

  // ----- the bytes of a section -----

  function SymbolBytes(entries: seq<Entry>): (s: seq<Byte>)
    ensures |s| == 16 * |entries|
  {
    if entries == [] then [] else PackSymbol(entries[0].stName, entries[0].sym) + SymbolBytes(entries[1..])
  }

  function RelaBytes(relas: seq<Rela>): (s: seq<Byte>)
    ensures |s| == 12 * |relas|
  {
    if relas == [] then [] else PackRela(relas[0]) + RelaBytes(relas[1..])
  }

  function BodyBytes(b: Body): seq<Byte> {
    match b
    case Raw(data) => data
    case Table(strs) => Emit(strs)
    case Symbols(entries) => PackSymbol(0, Symbol("", 0, 0, 0, 0, 0, SHN_UNDEF)) + SymbolBytes(entries)
    case Relas(relas) => RelaBytes(relas)
  }

  predicate BodyFits(b: Body) {
    match b
    case Symbols(entries) => forall i :: 0 <= i < |entries| ==> SymbolFits(entries[i].stName, entries[i].sym)
    case Relas(relas) => forall i :: 0 <= i < |relas| ==> RelaFits(relas[i])
    case _ => true
  }

  /** The table index of the last local symbol, 0 for none. */
  function LastLocal(entries: seq<Entry>): (n: nat)
    ensures n <= |entries|
    ensures n > 0 ==> entries[n - 1].sym.bind == 0
    ensures forall i :: n <= i < |entries| ==> entries[i].sym.bind != 0
  {
    var n := |entries|;
    if n == 0 then 0 else if entries[n - 1].sym.bind == 0 then n else LastLocal(entries[..n - 1])
  }

  /** `_prepare_for_write` */
  function Prepared(sec: ElfSection): ElfSection {
    var bytes := BodyBytes(sec.body);
    var h := match sec.body
      case Symbols(entries) => sec.header.(entsize := 16, info := LastLocal(entries) + 1)
      case Relas(_) => sec.header.(entsize := 12)
      case _ => sec.header;
    sec.(header := if bytes != [] then h.(size := |bytes|) else h)
  }

  function Pad(n: nat): (p: nat)
    ensures p < 4 && (n + p) % 4 == 0
  {
    (4 - n % 4) % 4
  }

  /** The file up to the end of the last section's data; the file header is filled in at the end. */
  function Data(secs: seq<ElfSection>): (s: seq<Byte>)
    ensures |s| >= 52 && |s| % 4 == 0
    decreases |secs|
  {
    var n := |secs|;
    if n == 0 then Zeros(52)
    else
      var d := Data(secs[..n - 1]) + BodyBytes(secs[n - 1].body);
      d + Zeros(Pad(|d|))
  }

  function Placed(sec: ElfSection, pos: nat): ElfSection {
    var p := Prepared(sec);
    p.(header := p.header.(offset := if sec.header.kind != SHT_NULL then pos else 0))
  }

  /** The sections with their offsets. */
  function PlacedAll(secs: seq<ElfSection>): (r: seq<ElfSection>)
    ensures |r| == |secs|
    decreases |secs|
  {
    var n := |secs|;
    if n == 0 then [] else PlacedAll(secs[..n - 1]) + [Placed(secs[n - 1], |Data(secs[..n - 1])|)]
  }

  lemma {:induction false} PlacedIndex(secs: seq<ElfSection>, i: nat, pos: nat)
    requires i < |secs| && pos == |Data(secs[..i])|
    ensures PlacedAll(secs)[i] == Placed(secs[i], pos)
    decreases |secs|
  {
    var front := secs[..|secs| - 1];
    PlacedLast(secs, front);
    if i < |front| {
      assert front[..i] == secs[..i];
      PlacedIndex(front, i, pos);
    }
  }

  lemma PlacedLast(secs: seq<ElfSection>, front: seq<ElfSection>)
    requires secs != [] && front == secs[..|secs| - 1]
    ensures PlacedAll(secs) == PlacedAll(front) + [Placed(secs[|secs| - 1], |Data(front)|)]
  {
  }

  function HeaderTable(secs: seq<ElfSection>): (s: seq<Byte>)
    ensures |s| == 40 * |secs|
  {
    if secs == [] then [] else HeaderTable(secs[..|secs| - 1]) + PackHeader(secs[|secs| - 1].header)
  }

  // ----- linking names to string tables -----

  function LinkEntries(entries: seq<Entry>, strs: seq<string>): (r: seq<Entry>)
    ensures |r| == |entries|
  {
    if entries == [] then []
    else
      var name := entries[0].sym.name;
      [Entry(OffsetIn(strs, name), entries[0].sym)] + LinkEntries(entries[1..], AddedTo(strs, name))
  }

  function EntriesAfter(entries: seq<Entry>, strs: seq<string>): seq<string>
    decreases |entries|
  {
    if entries == [] then strs else EntriesAfter(entries[1..], AddedTo(strs, entries[0].sym.name))
  }

  lemma LinkNext(entries: seq<Entry>, strs: seq<string>, i: nat, done: seq<Entry>)
    requires i < |entries|
    ensures var name := entries[i].sym.name;
            && done + LinkEntries(entries[i..], strs)
            == (done + [Entry(OffsetIn(strs, name), entries[i].sym)])
               + LinkEntries(entries[i + 1..], AddedTo(strs, name))
            && EntriesAfter(entries[i..], strs) == EntriesAfter(entries[i + 1..], AddedTo(strs, name))
  {
    assert entries[i..][0] == entries[i] && entries[i..][1..] == entries[i + 1..];
  }

  function LinkSection(sec: ElfSection, strndx: int, names: seq<string>, strs: seq<string>): ElfSection {
    var h := sec.header.(name := OffsetIn(names, sec.name));
    match sec.body
    case Symbols(entries) => sec.(header := h.(link := strndx), body := Symbols(LinkEntries(entries, strs)))
    case _ => sec.(header := h)
  }

  function StringsAfter(sec: ElfSection, strs: seq<string>): seq<string> {
    match sec.body
    case Symbols(entries) => EntriesAfter(entries, strs)
    case _ => strs
  }

  function Linked(secs: seq<ElfSection>, strndx: int, names: seq<string>, strs: seq<string>): (r: seq<ElfSection>)
    ensures |r| == |secs|
    decreases |secs|
  {
    if secs == [] then []
    else
      [LinkSection(secs[0], strndx, names, strs)]
        + Linked(secs[1..], strndx, AddedTo(names, secs[0].name), StringsAfter(secs[0], strs))
  }

  function AllNames(secs: seq<ElfSection>, names: seq<string>): seq<string>
    decreases |secs|
  {
    if secs == [] then names else AllNames(secs[1..], AddedTo(names, secs[0].name))
  }

  function AllStrings(secs: seq<ElfSection>, strs: seq<string>): seq<string>
    decreases |secs|
  {
    if secs == [] then strs else AllStrings(secs[1..], StringsAfter(secs[0], strs))
  }

  /** The entry of the section list at `ndx` is the string table object itself. */
  function WithTable(secs: seq<ElfSection>, ndx: int, strs: seq<string>): (r: seq<ElfSection>)
    ensures |r| == |secs|
  {
    if 0 <= ndx < |secs| then secs[ndx := secs[ndx].(body := Table(strs))] else secs
  }

  /** The sections once both string tables are linked. */
  function LinkedAll(secs: seq<ElfSection>, shstrndx: int, strndx: int): (r: seq<ElfSection>)
    ensures |r| == |secs|
  {
    WithTable(WithTable(Linked(secs, strndx, [], []), shstrndx, AllNames(secs, [])), strndx, AllStrings(secs, []))
  }

  /** Linking changes neither names nor types nor string tables. */
  predicate SameShape(a: ElfSection, b: ElfSection) {
    a.name == b.name && a.header.kind == b.header.kind && (a.body.Table? ==> b.body.Table?)
  }

  lemma {:induction false} LinkedShape(secs: seq<ElfSection>, strndx: int, names: seq<string>, strs: seq<string>)
    ensures forall i :: 0 <= i < |secs| ==> SameShape(secs[i], Linked(secs, strndx, names, strs)[i])
    decreases |secs|
  {
    if secs != [] {
      LinkedShape(secs[1..], strndx, AddedTo(names, secs[0].name), StringsAfter(secs[0], strs));
    }
  }

  lemma LinkedAllShape(secs: seq<ElfSection>, shstrndx: int, strndx: int)
    ensures forall i :: 0 <= i < |secs| ==> SameShape(secs[i], LinkedAll(secs, shstrndx, strndx)[i])
  {
    LinkedShape(secs, strndx, [], []);
  }

  lemma ShapeKeepsTable(a: seq<ElfSection>, b: seq<ElfSection>, ndx: int, name: string)
    requires |a| == |b| && forall i :: 0 <= i < |a| ==> SameShape(a[i], b[i])
    requires TableAt(a, ndx, name)
    ensures TableAt(b, ndx, name)
  {
    assert SameShape(a[ndx], b[ndx]);
  }

  lemma Advance<T>(r: seq<T>, i: nat, x: T, rest: seq<T>)
    requires i < |r|
    ensures r[..i] + ([x] + rest) == r[i := x][..i + 1] + rest
  {
  }

  lemma HasSectionSnoc(secs: seq<ElfSection>, sec: ElfSection, name: string)
    ensures HasSection(secs + [sec], name) <==> HasSection(secs, name) || sec.name == name
  {
    if HasSection(secs, name) {
      var i :| 0 <= i < |secs| && secs[i].name == name;
      assert (secs + [sec])[i].name == name;
    }
    if sec.name == name {
      assert (secs + [sec])[|secs|].name == name;
    }
  }

  predicate HasSection(secs: seq<ElfSection>, name: string) {
    exists i :: 0 <= i < |secs| && secs[i].name == name
  }

  /** The section list's own string table: the first section of that name. */
  predicate TableAt(secs: seq<ElfSection>, ndx: int, name: string) {
    && 0 < ndx < |secs| && secs[ndx].name == name && secs[ndx].header.kind == SHT_STRTAB && secs[ndx].body.Table?
    && forall j :: 0 <= j < ndx ==> secs[j].name != name
  }

  function WithSection(secs: seq<ElfSection>, name: string): seq<ElfSection> {
    if HasSection(secs, name) then secs else secs + [TableSection(name)]
  }

  /** The file header takes the place of the first bytes. */
  function Overwritten(data: seq<Byte>, header: seq<Byte>): seq<Byte>
    requires |header| <= |data|
  {
    header + data[|header|..]
  }

  /** The header as `__bytes__` fills it in. */
  function HeaderOf(kind: int, machine: int, entry: int, flags: int, linked: seq<ElfSection>, shstrndx: int)
    : FileHeader
  {
    FileHeader(IDENT, kind, machine, 1, entry, 0, |Data(linked)|, flags, 52, 0x20, 0, 0x28, |linked|, shstrndx)
  }

  /** The whole file. */
  function FileImage(fh: FileHeader, linked: seq<ElfSection>): seq<Byte>
    requires |fh.ident| == 16
  {
    Overwritten(Data(linked) + HeaderTable(PlacedAll(linked)), PackFileHeader(fh))
  }

  predicate BodiesFit(secs: seq<ElfSection>) {
    forall i :: 0 <= i < |secs| ==> BodyFits(secs[i].body)
  }

  predicate HeadersFit(secs: seq<ElfSection>) {
    forall i :: 0 <= i < |secs| ==> HeaderFits(secs[i].header)
  }

  /** Every number fits its field, so that no packing fails. */
  predicate FileFits(fh: FileHeader, linked: seq<ElfSection>) {
    FileHeaderFits(fh) && BodiesFit(linked) && HeadersFit(PlacedAll(linked))
  }

  lemma DataStep(secs: seq<ElfSection>, i: nat)
    requires i < |secs|
    ensures var d := Data(secs[..i]) + BodyBytes(secs[i].body); Data(secs[..i + 1]) == d + Zeros(Pad(|d|))
    ensures PlacedAll(secs[..i + 1]) == PlacedAll(secs[..i]) + [Placed(secs[i], |Data(secs[..i])|)]
    ensures BodiesFit(secs[..i + 1]) <==> BodiesFit(secs[..i]) && BodyFits(secs[i].body)
  {
    assert secs[..i + 1] == secs[..i] + [secs[i]];
  }

  lemma HeaderStep(secs: seq<ElfSection>, i: nat)
    requires i < |secs|
    ensures HeaderTable(secs[..i + 1]) == HeaderTable(secs[..i]) + PackHeader(secs[i].header)
    ensures HeadersFit(secs[..i + 1]) <==> HeadersFit(secs[..i]) && HeaderFits(secs[i].header)
  {
    assert secs[..i + 1] == secs[..i] + [secs[i]];
  }

  lemma PlacedTables(secs: seq<ElfSection>, shstrndx: int, strndx: int)
    ensures TableAt(secs, shstrndx, SHSTRTAB) ==> TableAt(PlacedAll(secs), shstrndx, SHSTRTAB)
    ensures TableAt(secs, strndx, STRTAB) ==> TableAt(PlacedAll(secs), strndx, STRTAB)
  {
    PlacedShape(secs);
    if TableAt(secs, shstrndx, SHSTRTAB) { ShapeKeepsTable(secs, PlacedAll(secs), shstrndx, SHSTRTAB); }
    if TableAt(secs, strndx, STRTAB) { ShapeKeepsTable(secs, PlacedAll(secs), strndx, STRTAB); }
  }

  lemma PlacedShape(secs: seq<ElfSection>)
    ensures forall i :: 0 <= i < |secs| ==> SameShape(secs[i], PlacedAll(secs)[i])
  {
    forall i | 0 <= i < |secs| ensures SameShape(secs[i], PlacedAll(secs)[i]) {
      PlacedIndex(secs, i, |Data(secs[..i])|);
      PlacedKeepsShape(secs[i], |Data(secs[..i])|);
    }
  }

  lemma PlacedKeepsShape(sec: ElfSection, pos: nat)
    ensures SameShape(sec, Placed(sec, pos))
  {
  }

  class Elf {
    var kind: int
    var machine: int
    var entry: int
    var flags: int
    var sections: seq<ElfSection>
    var shstrtab: Strtab
    var shstrtabndx: int
    var strtab: Strtab
    var strtabndx: int

    ghost predicate Valid()
      reads this, shstrtab, strtab
    {
      && shstrtab != strtab && shstrtab.Valid() && strtab.Valid()
      && (shstrtabndx == -1 || TableAt(sections, shstrtabndx, SHSTRTAB))
      && (strtabndx == -1 || TableAt(sections, strtabndx, STRTAB))
    }

    constructor (kind: int, machine: int, entry: int, flags: int)
      ensures Valid() && fresh(shstrtab) && fresh(strtab)
      ensures this.kind == kind && this.machine == machine && this.entry == entry && this.flags == flags
      ensures sections == [NullSection()] && shstrtabndx == -1 && strtabndx == -1
    {
      this.kind, this.machine, this.entry, this.flags := kind, machine, entry, flags;
      sections := [NullSection()];
      shstrtab := new Strtab([]);
      strtab := new Strtab([]);
      shstrtabndx, strtabndx := -1, -1;
    }

    method AddSection(sec: ElfSection) returns (ndx: nat)
      requires Valid()
      modifies this`sections
      ensures Valid() && sections == old(sections) + [sec] && ndx == |sections| - 1
    {
      sections := sections + [sec];
      ndx := |sections| - 1;
    }

    /** The first two steps of `__bytes__`. */
    method AddTables()
      requires Valid() && |sections| > 0
      modifies this`sections, this`shstrtab, this`shstrtabndx, this`strtab, this`strtabndx
      ensures Valid() && (shstrtab == old(shstrtab) || fresh(shstrtab)) && (strtab == old(strtab) || fresh(strtab))
      ensures sections == WithSection(WithSection(old(sections), SHSTRTAB), STRTAB)
      ensures !HasSection(old(sections), SHSTRTAB) ==> shstrtabndx == |old(sections)|
      ensures !HasSection(old(sections), STRTAB) ==> strtabndx == |sections| - 1
      ensures HasSection(old(sections), SHSTRTAB) ==> shstrtabndx == old(shstrtabndx)
      ensures HasSection(old(sections), STRTAB) ==> strtabndx == old(strtabndx)
    {
      HasSectionSnoc(sections, TableSection(SHSTRTAB), STRTAB);
      if !HasSection(sections, SHSTRTAB) {
        shstrtab := new Strtab([]);
        shstrtabndx := AddSection(TableSection(SHSTRTAB));
      }
      if !HasSection(sections, STRTAB) {
        strtab := new Strtab([]);
        strtabndx := AddSection(TableSection(STRTAB));
      }
    }

    /** `link_strtab` of one section */
    method LinkStrtab(sec: ElfSection) returns (r: ElfSection)
      requires Valid()
      modifies shstrtab, strtab
      ensures Valid()
      ensures r == LinkSection(sec, strtabndx, old(shstrtab.strs), old(strtab.strs))
      ensures shstrtab.strs == AddedTo(old(shstrtab.strs), sec.name)
      ensures strtab.strs == StringsAfter(sec, old(strtab.strs))
    {
      r := sec;
      if sec.body.Symbols? {
        var entries := LinkSymbols(sec.body.entries);
        r := sec.(header := sec.header.(link := strtabndx), body := Symbols(entries));
      }
      var offset := shstrtab.AddString(sec.name);
      r := r.(header := r.header.(name := offset));
    }

    method LinkSymbols(entries: seq<Entry>) returns (r: seq<Entry>)
      requires Valid()
      modifies strtab
      ensures Valid()
      ensures r == LinkEntries(entries, old(strtab.strs))
      ensures strtab.strs == EntriesAfter(entries, old(strtab.strs))
    {
      r := [];
      assert entries[0..] == entries;
      ghost var all := LinkEntries(entries, strtab.strs);
      for i := 0 to |entries|
        invariant Valid() && r + LinkEntries(entries[i..], strtab.strs) == all
        invariant EntriesAfter(entries[i..], strtab.strs) == EntriesAfter(entries, old(strtab.strs))
      {
        LinkNext(entries, strtab.strs, i, r);
        var offset := strtab.AddString(entries[i].sym.name);
        r := r + [Entry(offset, entries[i].sym)];
      }
    }

    method Link()
      requires Valid() && shstrtab.strs == [] && strtab.strs == []
      modifies this`sections, shstrtab, strtab
      ensures Valid() && sections == LinkedAll(old(sections), shstrtabndx, strtabndx)
    {
      ghost var secs := sections;
      ghost var all := Linked(secs, strtabndx, [], []);
      var result := sections;
      assert secs[0..] == secs;
      for i := 0 to |sections|
        invariant Valid() && |result| == |secs| && result[i..] == secs[i..]
        invariant result[..i] + Linked(secs[i..], strtabndx, shstrtab.strs, strtab.strs) == all
        invariant AllNames(secs[i..], shstrtab.strs) == AllNames(secs, [])
        invariant AllStrings(secs[i..], strtab.strs) == AllStrings(secs, [])
      {
        assert secs[i..][0] == result[i] && secs[i..][1..] == secs[i + 1..];
        var linked := LinkStrtab(result[i]);
        Advance(result, i, linked, Linked(secs[i + 1..], strtabndx, shstrtab.strs, strtab.strs));
        result := result[i := linked];
      }
      assert result == all;
      LinkedShape(secs, strtabndx, [], []);
      LinkedAllShape(secs, shstrtabndx, strtabndx);
      if shstrtabndx >= 0 {
        result := result[shstrtabndx := result[shstrtabndx].(body := Table(shstrtab.strs))];
        ShapeKeepsTable(secs, LinkedAll(secs, shstrtabndx, strtabndx), shstrtabndx, SHSTRTAB);
      }
      if strtabndx >= 0 {
        result := result[strtabndx := result[strtabndx].(body := Table(strtab.strs))];
        ShapeKeepsTable(secs, LinkedAll(secs, shstrtabndx, strtabndx), strtabndx, STRTAB);
      }
      sections := result;
    }

    /** The part of `__bytes__` after the string tables are linked. */
    method Serialize() returns (ok: bool, data: seq<Byte>)
      requires Valid()
      modifies this`sections
      ensures Valid() && sections == PlacedAll(old(sections))
      ensures var fh := HeaderOf(kind, machine, entry, flags, old(sections), shstrtabndx);
              (ok <==> FileFits(fh, old(sections))) && (ok ==> data == FileImage(fh, old(sections)))
    {
      ghost var linked := sections;
      var fits, body, placed := EmitSections(sections);
      PlacedTables(linked, shstrtabndx, strtabndx);
      sections := placed;
      var fh := FileHeader(IDENT, kind, machine, 1, entry, 0, |body|, flags, 52, 0x20, 0, 0x28, |placed|, shstrtabndx);
      ok, data := Complete(fh, body, placed);
      ok := ok && fits;
    }

    /** `__bytes__`; `ok` is false where a number does not fit its field. */
    method ToBytes() returns (ok: bool, data: seq<Byte>)
      requires Valid() && |sections| > 0
      modifies this`sections, this`shstrtab, this`shstrtabndx, this`strtab, this`strtabndx, shstrtab, strtab
      ensures Valid()
      ensures var secs := WithSection(WithSection(old(sections), SHSTRTAB), STRTAB);
              var linked := LinkedAll(secs, shstrtabndx, strtabndx);
              var fh := HeaderOf(kind, machine, entry, flags, linked, shstrtabndx);
              (ok <==> FileFits(fh, linked)) && (ok ==> data == FileImage(fh, linked) && sections == PlacedAll(linked))
      ensures !HasSection(old(sections), SHSTRTAB) ==> shstrtabndx == |old(sections)|
      ensures !HasSection(old(sections), STRTAB) ==> strtabndx == |sections| - 1
    {
      AddTables();
      ok, data := LinkAndSerialize();
    }

    /** `__bytes__` from the point where both string tables are in the list. */
    method LinkAndSerialize() returns (ok: bool, data: seq<Byte>)
      requires Valid()
      modifies this`sections, shstrtab, strtab
      ensures Valid() && |sections| == |old(sections)|
      ensures var linked := LinkedAll(old(sections), shstrtabndx, strtabndx);
              var fh := HeaderOf(kind, machine, entry, flags, linked, shstrtabndx);
              (ok <==> FileFits(fh, linked)) && (ok ==> data == FileImage(fh, linked) && sections == PlacedAll(linked))
    {
      shstrtab.Clear();
      strtab.Clear();
      Link();
      ok, data := Serialize();
    }
  }

  /** The loop over the section data. */
  method EmitSections(secs: seq<ElfSection>) returns (fits: bool, data: seq<Byte>, placed: seq<ElfSection>)
    ensures placed == PlacedAll(secs) && data == Data(secs)
    ensures fits <==> BodiesFit(secs)
  {
    placed := [];
    fits, data := true, Zeros(52);
    for i := 0 to |secs|
      invariant placed == PlacedAll(secs[..i]) && data == Data(secs[..i])
      invariant fits <==> BodiesFit(secs[..i])
    {
      DataStep(secs, i);
      fits := fits && BodyFits(secs[i].body);
      placed := placed + [Placed(secs[i], |data|)];
      data := PadData(data + BodyBytes(secs[i].body));
    }
    assert secs[..|secs|] == secs;
  }

  /** The section headers behind the data, and the file header over its beginning. */
  method Complete(fh: FileHeader, body: seq<Byte>, placed: seq<ElfSection>) returns (ok: bool, data: seq<Byte>)
    requires |body| >= 52 && |fh.ident| == 16
    ensures ok <==> HeadersFit(placed) && FileHeaderFits(fh)
    ensures data == Overwritten(body + HeaderTable(placed), PackFileHeader(fh))
  {
    var fits, headers := EmitHeaders(placed);
    ok := fits && FileHeaderFits(fh);
    data := Overwritten(body + headers, PackFileHeader(fh));
  }

  method EmitHeaders(secs: seq<ElfSection>) returns (fits: bool, data: seq<Byte>)
    ensures data == HeaderTable(secs) && (fits <==> HeadersFit(secs))
  {
    fits, data := true, [];
    for i := 0 to |secs|
      invariant data == HeaderTable(secs[..i]) && (fits <==> HeadersFit(secs[..i]))
    {
      HeaderStep(secs, i);
      fits := fits && HeaderFits(secs[i].header);
      data := data + PackHeader(secs[i].header);
    }
    assert secs[..|secs|] == secs;
  }

  /** Zeros are appended up to the next multiple of four. */
  method PadData(data: seq<Byte>) returns (r: seq<Byte>)
    ensures r == data + Zeros(Pad(|data|))
  {
    r := data;
    ghost var n := 0;
    while |r| % 4 != 0
      invariant n <= Pad(|data|) && r == data + Zeros(n)
      decreases Pad(|data|) - n
    {
      PadEnds(|data|, n);
      ZerosNext(data, n);
      r := r + [0];
      n := n + 1;
    }
    PadEnds(|data|, n);
  }

  lemma ZerosNext(data: seq<Byte>, n: nat)
    ensures data + Zeros(n) + [0] == data + Zeros(n + 1)
  {
  }

  /** Up to the padding only the last length is a multiple of four. */
  lemma PadEnds(len: nat, n: nat)
    requires n <= Pad(len)
    ensures (len + n) % 4 == 0 <==> n == Pad(len)
  {
    var p := Pad(len);
    if (len + n) % 4 == 0 {
      assert p - n == 4 * ((len + p) / 4 - (len + n) / 4);
    }
  }
}
